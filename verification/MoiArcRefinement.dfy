/** Used by one thread at a time, `MoiArc` behaves like `StdArc`: the same results, and every value
    destroyed at the same moment, cascades through values that own handles included. */
module MoiArcRefinement {
  import opened Wrappers
  import opened MoiArcPool
  import opened MoiArcInterleaving

  // ----- StdArc: one strong count for each allocation -----

  datatype StdRef = Handle(cell: Cell) | Pointer(cell: Cell)

  /** `contents` lists the handles a value owns, in the order in which it drops them. */
  datatype StdState = StdState(
    made: nat, strong: map<Cell, nat>, refs: map<Name, StdRef>, contents: map<Cell, seq<Name>>, destroyed: seq<Cell>)

  datatype Op =
    | MakeNew(r: Name, owned: seq<Name>)  // `new` of a value that owns these handles
    | Clone(from: Name, r: Name)
    | DropHandle(r: Name)
    | AsRef(r: Name)
    | Unwrap(r: Name)                     // `try_unwrap`
    | Inner(r: Name)                      // `into_inner`
    | ToRaw(r: Name, raw: Name)
    | OfRaw(raw: Name)                    // `from_raw`; the handle takes over the name
    | IncrementCount(from: Name, raw: Name)
    | DecrementCount(raw: Name)

  /** What the caller gets: nothing, a look at a value, a value moved out, or a refusal. */
  datatype Reply = Unit | Seen(cell: Cell) | Moved(cell: Cell, owned: seq<Name>) | Refused

  predicate IsHandle(a: StdState, r: Name) {
    r in a.refs && a.refs[r].Handle? && a.refs[r].cell in a.strong && a.refs[r].cell in a.contents
  }

  predicate IsPointer(a: StdState, r: Name) {
    r in a.refs && a.refs[r].Pointer? && a.refs[r].cell in a.strong && a.refs[r].cell in a.contents
  }

  predicate IsRef(a: StdState, r: Name) {
    IsHandle(a, r) || IsPointer(a, r)
  }

  /** One reference less; the handles that the value, if it was destroyed, still has to drop. */
  function StdLoseRef(a: StdState, r: Name): (StdState, seq<Name>)
    requires IsRef(a, r)
  {
    var cell := a.refs[r].cell;
    if a.strong[cell] <= 1 then
      (StdState(a.made, a.strong - {cell}, a.refs - {r}, a.contents - {cell}, a.destroyed + [cell]), a.contents[cell])
    else
      (a.(strong := a.strong[cell := a.strong[cell] - 1], refs := a.refs - {r}), [])
  }

  /** Drops the handles in turn; a destroyed value's own handles come first. */
  function StdDropAll(a: StdState, todo: seq<Name>): Option<StdState>
    decreases a.refs.Keys
  {
    if todo == [] then Some(a)
    else if !IsHandle(a, todo[0]) then None
    else
      var (b, freed) := StdLoseRef(a, todo[0]);
      StdDropAll(b, freed + todo[1..])
  }

  function StdDropOne(a: StdState, r: Name): Option<StdState> {
    if !IsRef(a, r) then None
    else
      var (b, freed) := StdLoseRef(a, r);
      StdDropAll(b, freed)
  }

  function WithReply(a: Option<StdState>, reply: Reply): Option<(StdState, Reply)> {
    if a.Some? then Some((a.value, reply)) else None
  }

  function MoreRefs(a: StdState, r: Name, ref: StdRef): StdState
    requires ref.cell in a.strong
  {
    a.(strong := a.strong[ref.cell := a.strong[ref.cell] + 1], refs := a.refs[r := ref])
  }

  function StdApply(a: StdState, op: Op): Option<(StdState, Reply)>
    requires Legal(a, op)
  {
    match op
    case MakeNew(r, owned) =>
      Some((StdState(a.made + 1, a.strong[a.made := 1], a.refs[r := Handle(a.made)], a.contents[a.made := owned], a.destroyed), Unit))
    case Clone(from, r) => Some((MoreRefs(a, r, Handle(a.refs[from].cell)), Unit))
    case DropHandle(r) => WithReply(StdDropOne(a, r), Unit)
    case AsRef(r) => Some((a, Seen(a.refs[r].cell)))
    case Unwrap(r) =>
      var cell := a.refs[r].cell;
      if a.strong[cell] == 1 then
        Some((a.(strong := a.strong - {cell}, refs := a.refs - {r}, contents := a.contents - {cell}), Moved(cell, a.contents[cell])))
      else
        Some((a, Refused))
    case Inner(r) =>
      var cell := a.refs[r].cell;
      if a.strong[cell] == 1 then
        Some((a.(strong := a.strong - {cell}, refs := a.refs - {r}, contents := a.contents - {cell}), Moved(cell, a.contents[cell])))
      else
        WithReply(StdDropOne(a, r), Refused)
    case ToRaw(r, raw) => Some((a.(refs := (a.refs - {r})[raw := Pointer(a.refs[r].cell)]), Unit))
    case OfRaw(raw) => Some((a.(refs := a.refs[raw := Handle(a.refs[raw].cell)]), Unit))
    case IncrementCount(from, raw) => Some((MoreRefs(a, raw, Pointer(a.refs[from].cell)), Unit))
    case DecrementCount(raw) => WithReply(StdDropOne(a, raw), Unit)
  }

  // ----- What the language asks of the caller -----

  ghost predicate Outside(contents: map<Cell, seq<Name>>, r: Name) {
    forall cell, i :: cell in contents && 0 <= i < |contents[cell]| ==> contents[cell][i] != r
  }

  /** Handles inside values are out of reach. */
  ghost predicate Root(a: StdState, r: Name) {
    Outside(a.contents, r)
  }

  ghost predicate Fresh(a: StdState, r: Name) {
    r.Name? && r !in a.refs
  }

  ghost predicate Legal(a: StdState, op: Op) {
    match op
    case MakeNew(r, owned) =>
      && Fresh(a, r)
      && (forall i :: 0 <= i < |owned| ==> IsHandle(a, owned[i]) && Root(a, owned[i]))
      && (forall i, j :: 0 <= i < j < |owned| ==> owned[i] != owned[j])
    case Clone(from, r) => IsHandle(a, from) && Fresh(a, r)
    case AsRef(r) => IsHandle(a, r)
    case ToRaw(r, raw) => IsHandle(a, r) && Root(a, r) && Fresh(a, raw)
    case OfRaw(raw) => IsPointer(a, raw)
    case IncrementCount(from, raw) => IsRef(a, from) && Fresh(a, raw)
    case DecrementCount(raw) => IsPointer(a, raw)
    case _ => IsHandle(a, op.r) && Root(a, op.r)
  }

  ghost predicate AllDifferent(contents: map<Cell, seq<Name>>, todo: seq<Name>) {
    && (forall i :: 0 <= i < |todo| ==> Outside(contents, todo[i]))
    && (forall i, j :: 0 <= i < j < |todo| ==> todo[i] != todo[j])
    && (forall cell, i, j :: cell in contents && 0 <= i < j < |contents[cell]| ==> contents[cell][i] != contents[cell][j])
    && (forall c, i, d, j :: c in contents && d in contents && c != d && 0 <= i < |contents[c]| && 0 <= j < |contents[d]| ==>
          contents[c][i] != contents[d][j])
  }

  /** The handles waiting to be dropped and the ones inside values are alive and all different. */
  ghost predicate Tidy(a: StdState, todo: seq<Name>) {
    && a.contents.Keys == a.strong.Keys
    && (forall i :: 0 <= i < |todo| ==> IsHandle(a, todo[i]))
    && (forall cell, i :: cell in a.contents && 0 <= i < |a.contents[cell]| ==> IsHandle(a, a.contents[cell][i]))
    && AllDifferent(a.contents, todo)
  }

  // ----- MoiArc: the steps of the pool, one operation at a time -----

  datatype MoiState = MoiState(base: State, contents: map<Cell, seq<Name>>)

  function Do(s: Option<State>, step: Step): Option<State> {
    if s.Some? && Enabled(s.value, step) then Some(Next(s.value, step)) else None
  }

  /** `decrement_strong_count`: count down under the lock, then drop a removed entry outside it. */
  function GiveBack(s: State, r: Name): (t: Option<State>)
    ensures t.Some? ==> r in s.refs && t.value.refs.Keys <= s.refs.Keys
  {
    var t := Do(Some(s), CountDown(r));
    if t.None? then None
    else
      var removed := Decrement(s.pool, s.refs[r].id).value.1;
      if removed.Some? then Do(t, Release(Entry(removed.value.cell))) else t
  }

  /** A handle's drop goes on to its inner Arc; a raw id has none. */
  function MoiLoseRef(s: State, r: Name): (t: Option<State>)
    ensures t.Some? ==> r in s.refs && t.value.refs.Keys <= s.refs.Keys - {r}
  {
    var t := GiveBack(s, r);
    if t.None? then None
    else if IsLive(s, r) then Do(t, Release(r))
    else if r in t.value.refs then None
    else t
  }

  /** The handles inside a value that the step from s to t has destroyed. */
  function Freed(m: MoiState, t: State, cell: Cell): (MoiState, seq<Name>) {
    if t.destroyed != m.base.destroyed && cell in m.contents then
      (MoiState(t, m.contents - {cell}), m.contents[cell])
    else
      (MoiState(t, m.contents), [])
  }

  function CellOf(s: State, r: Name): Cell
    requires Counted(s, r)
  {
    if s.refs[r].Live? then s.refs[r].cell
    else if s.refs[r].id in s.pool.entries then s.pool.entries[s.refs[r].id].cell
    else 0
  }

  function MoiDropAll(m: MoiState, todo: seq<Name>): Option<MoiState>
    decreases m.base.refs.Keys
  {
    if todo == [] then Some(m)
    else if !IsLive(m.base, todo[0]) then None
    else
      var t := MoiLoseRef(m.base, todo[0]);
      if t.None? then None
      else
        var (n, freed) := Freed(m, t.value, CellOf(m.base, todo[0]));
        MoiDropAll(n, freed + todo[1..])
  }

  function MoiDropOne(m: MoiState, r: Name): Option<MoiState> {
    if !Counted(m.base, r) then None
    else
      var t := MoiLoseRef(m.base, r);
      if t.None? then None
      else
        var (n, freed) := Freed(m, t.value, CellOf(m.base, r));
        MoiDropAll(n, freed)
  }

  /** `None` is a panic. */
  function Settled(s: Option<State>, contents: map<Cell, seq<Name>>, reply: Reply): Option<(MoiState, Reply)> {
    if s.Some? && !s.value.poisoned then Some((MoiState(s.value, contents), reply)) else None
  }

  function MoiReply(m: Option<MoiState>, reply: Reply): Option<(MoiState, Reply)> {
    if m.Some? then Some((m.value, reply)) else None
  }

  /** Both halves of `try_unwrap`; `refused` is what happens when the pool counts other references. */
  function MoiUnwrap(m: MoiState, r: Name, refused: Option<(MoiState, Reply)>): Option<(MoiState, Reply)> {
    var t := Do(Some(m.base), TryUnwrap(r));
    if t.None? then None
    else if t.value.lock != Some(r) then refused
    else
      var cell := m.base.refs[r].cell;
      Settled(Do(t, IntoInner(r)), m.contents - {cell}, Moved(cell, if cell in m.contents then m.contents[cell] else []))
  }

  function MoiApply(m: MoiState, op: Op): Option<(MoiState, Reply)> {
    match op
    case MakeNew(r, owned) => Settled(Do(Some(m.base), New(r)), m.contents[m.base.made := owned], Unit)
    case Clone(from, r) => Settled(Do(Do(Some(m.base), CountUp(from, r)), Build(from, r)), m.contents, Unit)
    case DropHandle(r) => MoiReply(MoiDropOne(m, r), Unit)
    case AsRef(r) => if IsLive(m.base, r) then Some((m, Seen(m.base.refs[r].cell))) else None
    case Unwrap(r) => MoiUnwrap(m, r, Some((m, Refused)))
    case Inner(r) => MoiUnwrap(m, r, MoiReply(MoiDropOne(m, r), Refused))
    case ToRaw(r, raw) => Settled(Do(Do(Some(m.base), IntoRaw(r, raw)), Release(r)), m.contents, Unit)
    case OfRaw(raw) => Settled(Do(Some(m.base), FromRaw(raw)), m.contents, Unit)
    case IncrementCount(from, raw) => Settled(Do(Some(m.base), CountUp(from, raw)), m.contents, Unit)
    case DecrementCount(raw) => MoiReply(MoiDropOne(m, raw), Unit)
  }

  // ----- The relation -----

  /** Nothing is half done: every reference is a handle or a raw id, and the lock is free. */
  ghost predicate Quiet(s: State) {
    LockFree(s) && !s.collided && forall r :: r in s.refs ==> Counted(s, r)
  }

  ghost predicate SameRef(s: State, ref: Ref, std: StdRef) {
    match ref
    case Live(_, cell) => std == Handle(cell)
    case Raw(id) => id in s.pool.entries && std == Pointer(s.pool.entries[id].cell)
    case _ => false
  }

  ghost predicate SameCount(s: State, a: StdState, cell: Cell) {
    && (cell in a.strong <==> Pooled(s, cell))
    && (cell in a.strong ==> a.strong[cell] == s.pool.entries[IdAt(cell)].refCount)
  }

  ghost predicate Related(m: MoiState, a: StdState) {
    && Inv(m.base) && Quiet(m.base)
    && a.made == m.base.made && a.destroyed == m.base.destroyed && a.contents == m.contents
    && a.refs.Keys == m.base.refs.Keys
    && (forall r :: r in a.refs ==> SameRef(m.base, m.base.refs[r], a.refs[r]))
    && (forall cell :: SameCount(m.base, a, cell))
  }

  // ----- One reference less -----

  /** With nothing half done, exactly the pooled objects are allocated. */
  lemma QuietAllocated(s: State, cell: Cell)
    requires Inv(s) && Quiet(s)
    ensures cell in s.strong <==> Pooled(s, cell)
  {
    if cell in s.strong {
      assert ObjectFits(s, cell);
      if x :| x in Owners(s.refs, cell) {
        assert RefFits(s, x);
      }
    }
    if Pooled(s, cell) {
      assert ObjectFits(s, cell);
    }
  }

  lemma CountDownEffect(s: State, r: Name)
    requires Inv(s) && Quiet(s) && Counted(s, r)
    ensures Enabled(s, CountDown(r)) && Pooled(s, CellOf(s, r)) && s.refs[r].id == IdAt(CellOf(s, r))
    ensures var t := Next(s, CountDown(r));
            var last := s.pool.entries[s.refs[r].id].refCount == 1;
            && Inv(t) && LockFree(t) && !t.collided && t.made == s.made && t.destroyed == s.destroyed && t.strong == s.strong
            && t.pool == Decrement(s.pool, s.refs[r].id).value.0
            && t.refs == RefsAfterCountDown(s, r, CellOf(s, r), last)
            && (last <==> !Pooled(t, CellOf(s, r)))
            && Decrement(s.pool, s.refs[r].id).value.1.Some? == last
            && (last ==> Decrement(s.pool, s.refs[r].id).value.1.value.cell == CellOf(s, r))
  {
    assert RefFits(s, r) && ObjectFits(s, CellOf(s, r));
    CountDownKeepsInv(s, r);
  }

  /** A release that leaves another owner, or the pool, destroys nothing. */
  lemma ReleaseEffect(s: State, r: Name)
    requires Inv(s) && r in s.refs && s.refs[r].Leaving?
    ensures Enabled(s, Release(r))
    ensures var t := Next(s, Release(r));
            var cell := s.refs[r].cell;
            && Inv(t) && t.pool == s.pool && t.refs == s.refs - {r} && t.made == s.made
            && t.lock == s.lock && t.poisoned == s.poisoned && t.collided == s.collided
            && t.destroyed == (if !Pooled(s, cell) && Owners(s.refs, cell) == {r} then s.destroyed + [cell] else s.destroyed)
  {
    assert RefFits(s, r);
    ReleaseKeepsInv(s, r);
    DestroyedExactlyByLastRelease(s, Release(r));
  }

  /** Who still owns the inner Arc once the last count is given back. */
  lemma LastOwners(s: State, r: Name)
    requires Inv(s) && Quiet(s) && Counted(s, r)
    requires s.refs[r].id in s.pool.entries && s.pool.entries[s.refs[r].id].refCount == 1
    ensures var cell := CellOf(s, r);
            var refs := RefsAfterCountDown(s, r, cell, true);
            Owners(refs, cell) == if s.refs[r].Live? then {Entry(cell), r} else {Entry(cell)}
  {
    var cell := CellOf(s, r);
    assert RefFits(s, r) && ObjectFits(s, cell);
    forall x | x in Owners(s.refs, cell)
      ensures x == r
    {
      assert RefFits(s, x);
      NobodyElseCounted(s, r, x);
    }
    var refs := RefsAfterCountDown(s, r, cell, true);
    assert Entry(cell) in s.refs ==> RefFits(s, Entry(cell));
    forall x | x in Owners(refs, cell) && x != Entry(cell)
      ensures x == r && s.refs[r].Live?
    {
      assert x != r ==> x in Owners(s.refs, cell);
    }
  }

  /** Giving back the last reference destroys the value, giving back another one does not. */
  lemma LoseRefEffect(s: State, r: Name)
    requires Inv(s) && Quiet(s) && Counted(s, r)
    ensures MoiLoseRef(s, r).Some? && s.refs[r].id in s.pool.entries
    ensures var t := MoiLoseRef(s, r).value;
            var last := s.pool.entries[s.refs[r].id].refCount == 1;
            && Inv(t) && Quiet(t) && t.made == s.made && t.refs == s.refs - {r}
            && t.pool == Decrement(s.pool, s.refs[r].id).value.0
            && t.destroyed == if last then s.destroyed + [CellOf(s, r)] else s.destroyed
  {
    CountDownEffect(s, r);
    var cell := CellOf(s, r);
    var s1 := Next(s, CountDown(r));
    var last := s.pool.entries[s.refs[r].id].refCount == 1;
    assert Entry(cell) in s.refs ==> RefFits(s, Entry(cell));
    assert Entry(cell) !in s.refs;
    if last {
      LastOwners(s, r);
      ReleaseEffect(s1, Entry(cell));
      var s2 := Next(s1, Release(Entry(cell)));
      if IsLive(s, r) {
        assert Owners(s2.refs, cell) == Owners(s1.refs, cell) - {Entry(cell)};
        ReleaseEffect(s2, r);
        assert s2.refs - {r} == s.refs - {r};
      } else {
        assert s2.refs == s.refs - {r};
      }
    } else if IsLive(s, r) {
      ReleaseEffect(s1, r);
      assert s1.refs - {r} == s.refs - {r};
    }
  }

  lemma SameCountAfterLoss(m: MoiState, a: StdState, r: Name, cell: Cell)
    requires Related(m, a) && Counted(m.base, r) && IsRef(a, r)
    ensures MoiLoseRef(m.base, r).Some?
    ensures SameCount(MoiLoseRef(m.base, r).value, StdLoseRef(a, r).0, cell)
  {
    var s := m.base;
    LoseRefEffect(s, r);
    assert RefFits(s, r) && SameRef(s, s.refs[r], a.refs[r]);
    assert SameCount(s, a, cell) && SameCount(s, a, CellOf(s, r));
    assert ObjectFits(s, CellOf(s, r));
    var id := s.refs[r].id;
    assert id == IdAt(CellOf(s, r));
  }

  lemma LoseRefRefines(m: MoiState, a: StdState, r: Name)
    requires Related(m, a) && Tidy(a, []) && IsRef(a, r)
    ensures Counted(m.base, r) && MoiLoseRef(m.base, r).Some?
    ensures var (n, freed) := Freed(m, MoiLoseRef(m.base, r).value, CellOf(m.base, r));
            Related(n, StdLoseRef(a, r).0) && freed == StdLoseRef(a, r).1
  {
    var s := m.base;
    assert SameRef(s, s.refs[r], a.refs[r]);
    LoseRefEffect(s, r);
    var t := MoiLoseRef(s, r).value;
    var (b, freed) := StdLoseRef(a, r);
    assert SameCount(s, a, CellOf(s, r)) && ObjectFits(s, CellOf(s, r));
    forall cell
      ensures SameCount(t, b, cell)
    {
      SameCountAfterLoss(m, a, r, cell);
    }
    forall x | x in b.refs
      ensures SameRef(t, t.refs[x], b.refs[x])
    {
      assert SameRef(s, s.refs[x], a.refs[x]) && RefFits(t, x) && RefFits(s, x);
    }
  }

  // ----- Cascades -----

  lemma RefsAreSound(m: MoiState, a: StdState, r: Name)
    requires Related(m, a) && a.contents.Keys == a.strong.Keys && r in a.refs
    ensures IsRef(a, r) && Counted(m.base, r)
    ensures IsHandle(a, r) <==> IsLive(m.base, r)
    ensures a.refs[r].cell == CellOf(m.base, r)
  {
    assert SameRef(m.base, m.base.refs[r], a.refs[r]) && RefFits(m.base, r);
    assert SameCount(m.base, a, a.refs[r].cell);
  }

  lemma HandlesStaySound(m: MoiState, a: StdState, r: Name)
    requires Related(m, a) && Tidy(a, []) && IsRef(a, r)
    ensures var b := StdLoseRef(a, r).0;
            forall x :: x in b.refs && b.refs[x].Handle? ==> IsHandle(b, x)
  {
    LoseRefRefines(m, a, r);
    var (n, _) := Freed(m, MoiLoseRef(m.base, r).value, CellOf(m.base, r));
    var b := StdLoseRef(a, r).0;
    forall x | x in b.refs && b.refs[x].Handle?
      ensures IsHandle(b, x)
    {
      RefsAreSound(n, b, x);
    }
  }

  /** What is left to do after losing one reference is still all different and alive. */
  lemma TidyAfterLoss(a: StdState, r: Name, todo: seq<Name>)
    requires Tidy(a, todo) && IsRef(a, r) && Root(a, r) && r !in todo
    requires var b := StdLoseRef(a, r).0;
             forall x :: x in b.refs && b.refs[x].Handle? ==> IsHandle(b, x)
    ensures var (b, freed) := StdLoseRef(a, r);
            Tidy(b, freed + todo)
  {
    var (b, freed) := StdLoseRef(a, r);
    if a.strong[a.refs[r].cell] <= 1 {
      DifferentAfterFreeing(a.contents, a.refs[r].cell, todo);
    }
    assert AllDifferent(b.contents, freed + todo);
    assert forall i :: 0 <= i < |freed + todo| ==> (freed + todo)[i] in b.refs;
  }

  lemma DifferentAfterFreeing(contents: map<Cell, seq<Name>>, cell: Cell, todo: seq<Name>)
    requires AllDifferent(contents, todo) && cell in contents
    ensures AllDifferent(contents - {cell}, contents[cell] + todo)
  {}

  /** The first of several handles to drop is lost; what its value owned comes first among the others. */
  lemma FirstOfManyLost(m: MoiState, a: StdState, todo: seq<Name>)
    requires Related(m, a) && Tidy(a, todo) && todo != []
    ensures IsHandle(a, todo[0]) && IsLive(m.base, todo[0]) && MoiLoseRef(m.base, todo[0]).Some?
    ensures var (n, freed) := Freed(m, MoiLoseRef(m.base, todo[0]).value, CellOf(m.base, todo[0]));
            var (b, stdFreed) := StdLoseRef(a, todo[0]);
            freed == stdFreed && Related(n, b) && Tidy(b, freed + todo[1..])
  {
    var r := todo[0];
    assert IsHandle(a, r) && Root(a, r);
    RefsAreSound(m, a, r);
    assert Tidy(a, todo[1..]) && Tidy(a, []);
    HandlesStaySound(m, a, r);
    TidyAfterLoss(a, r, todo[1..]);
    LoseRefRefines(m, a, r);
  }

  lemma DropAllRefines(m: MoiState, a: StdState, todo: seq<Name>)
    requires Related(m, a) && Tidy(a, todo)
    ensures MoiDropAll(m, todo).Some? && StdDropAll(a, todo).Some?
    ensures Related(MoiDropAll(m, todo).value, StdDropAll(a, todo).value)
    ensures Tidy(StdDropAll(a, todo).value, [])
    decreases a.refs.Keys
  {
    if todo != [] {
      FirstOfManyLost(m, a, todo);
      var (n, freed) := Freed(m, MoiLoseRef(m.base, todo[0]).value, CellOf(m.base, todo[0]));
      var rest := freed + todo[1..];
      var b := StdLoseRef(a, todo[0]).0;
      assert MoiDropAll(m, todo) == MoiDropAll(n, rest) && StdDropAll(a, todo) == StdDropAll(b, rest);
      DropAllRefines(n, b, rest);
    }
  }

  lemma DropOneRefines(m: MoiState, a: StdState, r: Name)
    requires Related(m, a) && Tidy(a, []) && IsRef(a, r) && Root(a, r)
    ensures MoiDropOne(m, r).Some? && StdDropOne(a, r).Some?
    ensures Related(MoiDropOne(m, r).value, StdDropOne(a, r).value)
    ensures Tidy(StdDropOne(a, r).value, [])
  {
    RefsAreSound(m, a, r);
    HandlesStaySound(m, a, r);
    TidyAfterLoss(a, r, []);
    LoseRefRefines(m, a, r);
    var (n, freed) := Freed(m, MoiLoseRef(m.base, r).value, CellOf(m.base, r));
    assert freed + [] == freed;
    DropAllRefines(n, StdLoseRef(a, r).0, freed);
  }

  // ----- One operation -----

  /** The two things MoiArc cannot do and StdArc can: reuse an id that is still taken, and count
      beyond 32 bits. */
  ghost predicate Smooth(a: StdState, op: Op) {
    match op
    case MakeNew(_, _) => forall cell: Cell :: cell in a.strong && cell <= a.made ==> (a.made - cell) % MAX_ID != 0
    case Clone(from, _) => from in a.refs && a.refs[from].cell in a.strong && a.strong[a.refs[from].cell] < I32_MAX
    case IncrementCount(from, _) => from in a.refs && a.refs[from].cell in a.strong && a.strong[a.refs[from].cell] < I32_MAX
    case _ => true
  }

  /** MoiArc panics or does what StdArc does. */
  ghost predicate Matches(m: MoiState, a: StdState, op: Op)
    requires Legal(a, op)
  {
    && (MoiApply(m, op).Some? <==> Smooth(a, op))
    && StdApply(a, op).Some?
    && Tidy(StdApply(a, op).value.0, [])
    && (Smooth(a, op) ==>
          && MoiApply(m, op).value.1 == StdApply(a, op).value.1
          && Related(MoiApply(m, op).value.0, StdApply(a, op).value.0))
  }

  lemma BothDo(m: MoiState, a: StdState, op: Op, n: MoiState, b: StdState, reply: Reply)
    requires Legal(a, op) && Smooth(a, op) && Related(n, b) && Tidy(b, [])
    requires MoiApply(m, op) == Some((n, reply)) && StdApply(a, op) == Some((b, reply))
    ensures Matches(m, a, op)
  {}

  lemma OnlyMoiPanics(m: MoiState, a: StdState, op: Op, b: StdState, reply: Reply)
    requires Legal(a, op) && !Smooth(a, op) && Tidy(b, [])
    requires MoiApply(m, op) == None && StdApply(a, op) == Some((b, reply))
    ensures Matches(m, a, op)
  {}

  lemma CollisionsMatch(m: MoiState, a: StdState, r: Name, owned: seq<Name>)
    requires Related(m, a)
    ensures Smooth(a, MakeNew(r, owned)) <==> !Collides(m.base)
    ensures a.made !in a.strong
  {
    forall cell: Cell
      ensures cell in a.strong <==> Pooled(m.base, cell)
      ensures cell in a.strong ==> cell < a.made
    {
      assert SameCount(m.base, a, cell);
    }
    CollidesExactlyWhen(m.base);
  }

  lemma TidyAfterNew(a: StdState, r: Name, owned: seq<Name>)
    requires Tidy(a, []) && Legal(a, MakeNew(r, owned)) && a.made !in a.strong
    ensures Tidy(StdApply(a, MakeNew(r, owned)).value.0, [])
  {}

  lemma NewRelated(m: MoiState, a: StdState, r: Name, owned: seq<Name>)
    requires Related(m, a) && Legal(a, MakeNew(r, owned)) && !Collides(m.base)
    ensures Enabled(m.base, New(r))
    ensures Related(MoiState(AfterNew(m.base, r), m.contents[a.made := owned]), StdApply(a, MakeNew(r, owned)).value.0)
  {
    var s := m.base;
    var b := StdApply(a, MakeNew(r, owned)).value.0;
    NewKeepsInv(s, r);
    var t := AfterNew(s, r);
    IdsCycle(s.made);
    forall cell
      ensures SameCount(t, b, cell)
    {
      assert SameCount(s, a, cell);
    }
    forall x | x in b.refs
      ensures SameRef(t, t.refs[x], b.refs[x])
    {
      assert x != r ==> SameRef(s, s.refs[x], a.refs[x]) && RefFits(s, x);
    }
  }

  lemma NewMatches(m: MoiState, a: StdState, r: Name, owned: seq<Name>)
    requires Related(m, a) && Tidy(a, []) && Legal(a, MakeNew(r, owned))
    ensures Matches(m, a, MakeNew(r, owned))
  {
    CollisionsMatch(m, a, r, owned);
    TidyAfterNew(a, r, owned);
    if !Collides(m.base) {
      NewRelated(m, a, r, owned);
    }
  }

  /** Counting one reference more, as a raw id. */
  lemma CountUpMatches(m: MoiState, a: StdState, from: Name, r: Name)
    requires Related(m, a) && Tidy(a, []) && IsRef(a, from) && Fresh(a, r)
    ensures Enabled(m.base, CountUp(from, r)) <==> a.strong[a.refs[from].cell] < I32_MAX
    ensures Tidy(MoreRefs(a, r, Pointer(a.refs[from].cell)), [])
    ensures Enabled(m.base, CountUp(from, r)) ==>
              Related(MoiState(Next(m.base, CountUp(from, r)), m.contents), MoreRefs(a, r, Pointer(a.refs[from].cell)))
  {
    var s := m.base;
    RefsAreSound(m, a, from);
    assert RefFits(s, from) && SameCount(s, a, a.refs[from].cell);
    var b := MoreRefs(a, r, Pointer(a.refs[from].cell));
    if Enabled(s, CountUp(from, r)) {
      CountUpKeepsInv(s, from, r);
      var t := Next(s, CountUp(from, r));
      forall cell
        ensures SameCount(t, b, cell)
      {
        assert SameCount(s, a, cell);
      }
      forall x | x in b.refs
        ensures SameRef(t, t.refs[x], b.refs[x])
      {
        assert x != r ==> SameRef(s, s.refs[x], a.refs[x]) && RefFits(s, x);
      }
    }
  }

  /** A raw id becomes a handle of the same object. */
  lemma BuildMatches(m: MoiState, a: StdState, r: Name, cell: Cell)
    requires Related(m, a) && Tidy(a, []) && IsPointer(a, r) && a.refs[r].cell == cell
    ensures r in m.base.refs && m.base.refs[r] == Raw(IdAt(cell)) && Pooled(m.base, cell) && cell in m.base.strong
    ensures var t := MoreArc(WithRef(m.base, r, Live(IdAt(cell), cell)), cell);
            Related(MoiState(t, m.contents), a.(refs := a.refs[r := Handle(cell)]))
    ensures Tidy(a.(refs := a.refs[r := Handle(cell)]), [])
  {
    var s := m.base;
    RefsAreSound(m, a, r);
    assert SameRef(s, s.refs[r], a.refs[r]) && RefFits(s, r);
    QuietAllocated(s, cell);
    BuildingKeepsInv(s, r, IdAt(cell), cell);
    var t := MoreArc(WithRef(s, r, Live(IdAt(cell), cell)), cell);
    var b := a.(refs := a.refs[r := Handle(cell)]);
    forall c
      ensures SameCount(t, b, c)
    {
      assert SameCount(s, a, c);
    }
    forall x | x in b.refs
      ensures SameRef(t, t.refs[x], b.refs[x])
    {
      assert SameRef(s, s.refs[x], a.refs[x]);
    }
  }

  /** The second half of `clone`, after the first. */
  lemma CloneBuilds(m: MoiState, a: StdState, from: Name, r: Name)
    requires Related(m, a) && Tidy(a, []) && IsPointer(a, r) && IsHandle(a, from) && a.refs[from].cell == a.refs[r].cell
    ensures Enabled(m.base, Build(from, r))
    ensures var b := a.(refs := a.refs[r := Handle(a.refs[r].cell)]);
            Tidy(b, []) && Related(MoiState(Next(m.base, Build(from, r)), m.contents), b)
  {
    RefsAreSound(m, a, from);
    BuildMatches(m, a, r, a.refs[r].cell);
    assert RefFits(m.base, from);
  }

  lemma TidyWithHandle(a: StdState, r: Name)
    requires Tidy(a, []) && IsPointer(a, r)
    ensures Tidy(a.(refs := a.refs[r := Handle(a.refs[r].cell)]), [])
  {}

  lemma CloneMatches(m: MoiState, a: StdState, from: Name, r: Name)
    requires Related(m, a) && Tidy(a, []) && Legal(a, Clone(from, r))
    ensures Matches(m, a, Clone(from, r))
  {
    CountUpMatches(m, a, from, r);
    var cell := a.refs[from].cell;
    var b := MoreRefs(a, r, Pointer(cell));
    var c := b.(refs := b.refs[r := Handle(cell)]);
    assert c == MoreRefs(a, r, Handle(cell));
    TidyWithHandle(b, r);
    if Enabled(m.base, CountUp(from, r)) {
      var n := MoiState(Next(m.base, CountUp(from, r)), m.contents);
      CloneBuilds(n, b, from, r);
      BothDo(m, a, Clone(from, r), MoiState(Next(n.base, Build(from, r)), m.contents), c, Unit);
    } else {
      OnlyMoiPanics(m, a, Clone(from, r), c, Unit);
    }
  }

  lemma OfRawMatches(m: MoiState, a: StdState, raw: Name)
    requires Related(m, a) && Tidy(a, []) && Legal(a, OfRaw(raw))
    ensures Matches(m, a, OfRaw(raw))
  {
    BuildMatches(m, a, raw, a.refs[raw].cell);
  }

  lemma ToRawEffect(s: State, r: Name, raw: Name)
    requires Inv(s) && Quiet(s) && Enabled(s, IntoRaw(r, raw))
    ensures var s1 := Next(s, IntoRaw(r, raw));
            && Enabled(s1, Release(r))
            && var t := Next(s1, Release(r));
               && Inv(t) && Quiet(t) && t.pool == s.pool && t.made == s.made && t.destroyed == s.destroyed
               && t.refs == (s.refs - {r})[raw := Raw(s.refs[r].id)]
  {
    assert RefFits(s, r);
    IntoRawKeepsInv(s, r, raw);
    var s1 := Next(s, IntoRaw(r, raw));
    ReleaseEffect(s1, r);
    assert Pooled(s1, s.refs[r].cell);
    assert s1.refs - {r} == (s.refs - {r})[raw := Raw(s.refs[r].id)];
  }

  lemma TidyAfterToRaw(a: StdState, r: Name, raw: Name)
    requires Tidy(a, []) && Legal(a, ToRaw(r, raw))
    ensures Tidy(StdApply(a, ToRaw(r, raw)).value.0, [])
  {
    assert forall c, i :: c in a.contents && 0 <= i < |a.contents[c]| ==> a.contents[c][i] != r && a.contents[c][i] != raw;
  }

  lemma ToRawMatches(m: MoiState, a: StdState, r: Name, raw: Name)
    requires Related(m, a) && Tidy(a, []) && Legal(a, ToRaw(r, raw))
    ensures Matches(m, a, ToRaw(r, raw))
  {
    var s := m.base;
    RefsAreSound(m, a, r);
    assert RefFits(s, r);
    ToRawEffect(s, r, raw);
    TidyAfterToRaw(a, r, raw);
    var t := Next(Next(s, IntoRaw(r, raw)), Release(r));
    var b := StdApply(a, ToRaw(r, raw)).value.0;
    forall c
      ensures SameCount(t, b, c)
    {
      assert SameCount(s, a, c);
    }
    forall x | x in b.refs
      ensures SameRef(t, t.refs[x], b.refs[x])
    {
      assert x != raw ==> SameRef(s, s.refs[x], a.refs[x]);
    }
  }

  /** `try_unwrap` of the only reference moves the value out; nothing is destroyed. */
  lemma UnwrapEffect(m: MoiState, a: StdState, r: Name)
    requires Related(m, a) && Tidy(a, []) && IsHandle(a, r) && Root(a, r) && a.strong[a.refs[r].cell] == 1
    ensures Enabled(m.base, TryUnwrap(r)) && AfterTryUnwrap(m.base, r).lock == Some(r)
    ensures Enabled(AfterTryUnwrap(m.base, r), IntoInner(r))
    ensures var t := AfterIntoInner(AfterTryUnwrap(m.base, r), r);
            && Inv(t) && !t.poisoned && !t.collided && t.lock == None && t.made == m.base.made
            && t.pool == m.base.pool.(entries := m.base.pool.entries - {IdAt(a.refs[r].cell)})
            && t.refs == m.base.refs - {r} && t.destroyed == m.base.destroyed
  {
    var s := m.base;
    RefsAreSound(m, a, r);
    assert RefFits(s, r);
    var cell := s.refs[r].cell;
    assert SameCount(s, a, cell);
    QuietAllocated(s, cell);
    assert ObjectFits(s, cell);
    TryUnwrapKeepsInv(s, r);
    var s1 := AfterTryUnwrap(s, r);
    OnlyMember(Owners(s.refs, cell), r);
    IntoInnerKeepsInv(s1, r);
    UnwrapSucceedsExactlyWhen(s1, r);
    assert s1.refs == s.refs[r := Unwrapping(cell)];
    assert forall x :: x in s1.refs ==> !s1.refs[x].Leaving?;
    assert s1.refs - {r} == s.refs - {r};
  }

  lemma UnwrapRelated(m: MoiState, a: StdState, r: Name) returns (n: MoiState)
    requires Related(m, a) && Tidy(a, []) && Legal(a, Unwrap(r)) && a.strong[a.refs[r].cell] == 1
    ensures MoiUnwrap(m, r, None) == Some((n, Moved(a.refs[r].cell, a.contents[a.refs[r].cell])))
    ensures Related(n, StdApply(a, Unwrap(r)).value.0)
  {
    var s := m.base;
    var cell := a.refs[r].cell;
    RefsAreSound(m, a, r);
    UnwrapEffect(m, a, r);
    assert RefFits(s, r) && SameCount(s, a, cell);
    var t := AfterIntoInner(AfterTryUnwrap(s, r), r);
    n := MoiState(t, m.contents - {cell});
    var b := StdApply(a, Unwrap(r)).value.0;
    forall c
      ensures SameCount(t, b, c)
    {
      assert SameCount(s, a, c);
    }
    forall x | x in b.refs
      ensures SameRef(t, t.refs[x], b.refs[x])
    {
      assert SameRef(s, s.refs[x], a.refs[x]) && RefFits(s, x) && RefFits(t, x);
    }
  }

  lemma TidyAfterUnwrap(n: MoiState, a: StdState, r: Name)
    requires Tidy(a, []) && Legal(a, Unwrap(r)) && a.strong[a.refs[r].cell] == 1
    requires Related(n, StdApply(a, Unwrap(r)).value.0)
    ensures Tidy(StdApply(a, Unwrap(r)).value.0, [])
  {
    var b := StdApply(a, Unwrap(r)).value.0;
    forall x | x in b.refs && b.refs[x].Handle?
      ensures IsHandle(b, x)
    {
      RefsAreSound(n, b, x);
    }
    DifferentAfterFreeing(a.contents, a.refs[r].cell, []);
  }

  lemma UnwrapMatches(m: MoiState, a: StdState, r: Name)
    requires Related(m, a) && Tidy(a, []) && Legal(a, Unwrap(r)) && a.strong[a.refs[r].cell] == 1
    ensures Matches(m, a, Unwrap(r)) && Matches(m, a, Inner(r))
  {
    var n := UnwrapRelated(m, a, r);
    TidyAfterUnwrap(n, a, r);
    UnwrapEffect(m, a, r);
    var b, reply := StdApply(a, Unwrap(r)).value.0, Moved(a.refs[r].cell, a.contents[a.refs[r].cell]);
    BothDo(m, a, Unwrap(r), n, b, reply);
    BothDo(m, a, Inner(r), n, b, reply);
  }

  lemma RefusalEffect(m: MoiState, a: StdState, r: Name)
    requires Related(m, a) && Tidy(a, []) && IsHandle(a, r) && a.strong[a.refs[r].cell] != 1
    ensures Enabled(m.base, TryUnwrap(r)) && AfterTryUnwrap(m.base, r) == m.base && m.base.lock == None
  {
    RefsAreSound(m, a, r);
    assert RefFits(m.base, r) && SameCount(m.base, a, a.refs[r].cell);
    QuietAllocated(m.base, a.refs[r].cell);
  }

  lemma RefusalMatches(m: MoiState, a: StdState, r: Name)
    requires Related(m, a) && Tidy(a, []) && Legal(a, Unwrap(r)) && a.strong[a.refs[r].cell] != 1
    ensures Matches(m, a, Unwrap(r)) && Matches(m, a, Inner(r))
  {
    RefusalEffect(m, a, r);
    BothDo(m, a, Unwrap(r), m, a, Refused);
    DropOneRefines(m, a, r);
    BothDo(m, a, Inner(r), MoiDropOne(m, r).value, StdDropOne(a, r).value, Refused);
  }

  lemma OpMatches(m: MoiState, a: StdState, op: Op)
    requires Related(m, a) && Tidy(a, []) && Legal(a, op)
    ensures Matches(m, a, op)
  {
    match op {
      case MakeNew(r, owned) => NewMatches(m, a, r, owned);
      case Clone(from, r) => CloneMatches(m, a, from, r);
      case DropHandle(r) => DropOneRefines(m, a, r);
      case AsRef(r) => RefsAreSound(m, a, r);
      case Unwrap(r) =>
        if a.strong[a.refs[r].cell] == 1 { UnwrapMatches(m, a, r); } else { RefusalMatches(m, a, r); }
      case Inner(r) =>
        if a.strong[a.refs[r].cell] == 1 { UnwrapMatches(m, a, r); } else { RefusalMatches(m, a, r); }
      case ToRaw(r, raw) => ToRawMatches(m, a, r, raw);
      case OfRaw(raw) => OfRawMatches(m, a, raw);
      case IncrementCount(from, raw) => CountUpMatches(m, a, from, raw);
      case DecrementCount(raw) => DropOneRefines(m, a, raw);
    }
  }

  // ----- Whole runs -----

  const STD_EMPTY := StdState(0, map[], map[], map[], [])
  const MOI_EMPTY := MoiState(EMPTY, map[])

  /** Every operation is one the language lets the caller do at that point. */
  ghost predicate LegalRun(a: StdState, ops: seq<Op>)
    decreases |ops|
  {
    ops == [] || (Legal(a, ops[0]) && (StdApply(a, ops[0]).Some? ==> LegalRun(StdApply(a, ops[0]).value.0, ops[1..])))
  }

  ghost predicate SmoothRun(a: StdState, ops: seq<Op>)
    requires LegalRun(a, ops)
    decreases |ops|
  {
    ops == [] || (Smooth(a, ops[0]) && (StdApply(a, ops[0]).Some? ==> SmoothRun(StdApply(a, ops[0]).value.0, ops[1..])))
  }

  ghost function StdRun(a: StdState, ops: seq<Op>): Option<(StdState, seq<Reply>)>
    requires LegalRun(a, ops)
    decreases |ops|
  {
    if ops == [] then Some((a, []))
    else
      var first := StdApply(a, ops[0]);
      if first.None? then None
      else
        var rest := StdRun(first.value.0, ops[1..]);
        if rest.None? then None else Some((rest.value.0, [first.value.1] + rest.value.1))
  }

  /** `None` if some operation panics. */
  function MoiRun(m: MoiState, ops: seq<Op>): Option<(MoiState, seq<Reply>)>
    decreases |ops|
  {
    if ops == [] then Some((m, []))
    else
      var first := MoiApply(m, ops[0]);
      if first.None? then None
      else
        var rest := MoiRun(first.value.0, ops[1..]);
        if rest.None? then None else Some((rest.value.0, [first.value.1] + rest.value.1))
  }

  lemma {:induction false} RunsMatchFrom(m: MoiState, a: StdState, ops: seq<Op>)
    requires Related(m, a) && Tidy(a, []) && LegalRun(a, ops)
    ensures MoiRun(m, ops).Some? <==> SmoothRun(a, ops)
    ensures MoiRun(m, ops).Some? ==>
              && StdRun(a, ops).Some?
              && MoiRun(m, ops).value.1 == StdRun(a, ops).value.1
              && Related(MoiRun(m, ops).value.0, StdRun(a, ops).value.0)
    decreases |ops|
  {
    if ops != [] {
      OpMatches(m, a, ops[0]);
      if Smooth(a, ops[0]) {
        RunsMatchFrom(MoiApply(m, ops[0]).value.0, StdApply(a, ops[0]).value.0, ops[1..]);
      }
    }
  }

  lemma EmptyRelated()
    ensures Related(MOI_EMPTY, STD_EMPTY) && Tidy(STD_EMPTY, [])
  {
    EmptyInv();
  }

  /** Every legal sequential run: MoiArc panics exactly if the run reuses a taken id or overflows a
      count; otherwise all replies and the whole order of destructions are those of StdArc. No value
      is destroyed twice, and none that some handle or raw id still refers to. */
  lemma MoiArcRefinesStdArc(ops: seq<Op>)
    requires LegalRun(STD_EMPTY, ops)
    ensures MoiRun(MOI_EMPTY, ops).Some? <==> SmoothRun(STD_EMPTY, ops)
    ensures MoiRun(MOI_EMPTY, ops).Some? ==>
              StdRun(STD_EMPTY, ops).Some? &&
              var (m, replies) := MoiRun(MOI_EMPTY, ops).value;
              var (a, stdReplies) := StdRun(STD_EMPTY, ops).value;
              && replies == stdReplies && m.base.destroyed == a.destroyed
              && DestroyedOnce(m.base)
              && (forall r :: r in m.base.refs ==> Counted(m.base, r) && CellOf(m.base, r) !in m.base.destroyed)
  {
    EmptyRelated();
    RunsMatchFrom(MOI_EMPTY, STD_EMPTY, ops);
    if MoiRun(MOI_EMPTY, ops).Some? {
      var m := MoiRun(MOI_EMPTY, ops).value.0;
      forall r | r in m.base.refs
        ensures Counted(m.base, r) && CellOf(m.base, r) !in m.base.destroyed
      {
        assert RefFits(m.base, r) && ObjectFits(m.base, CellOf(m.base, r));
      }
    }
  }
}
