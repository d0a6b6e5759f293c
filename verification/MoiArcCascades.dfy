/** Pooled values that own handles into the same pool, under every interleaving of threads. */
module MoiArcCascades {
  import opened Wrappers
  import opened MoiArcPool
  import opened MoiArcInterleaving

  /** `contents` lists the handles that each living value owns. */
  datatype World = World(base: State, contents: map<Cell, seq<Name>>)

  const NOTHING := World(EMPTY, map[])

  datatype Move =
    | Create(r: Name, owned: seq<Name>)  // `new` of a value that takes over these handles
    | Other(step: Step)                  // any other step of any thread

  ghost predicate Stored(contents: map<Cell, seq<Name>>, r: Name) {
    exists cell, i :: cell in contents && 0 <= i < |contents[cell]| && contents[cell][i] == r
  }

  /** The handle or raw id that a step uses up; cloning only looks at one. */
  function Consumed(step: Step): Option<Name> {
    match step
    case CountUp(_, _) => None
    case _ => Some(step.r)
  }

  /** A handle inside a living value can be cloned, but not dropped, unwrapped or turned into a raw id. */
  ghost predicate Possible(w: World, move: Move) {
    match move
    case Create(r, owned) =>
      && Enabled(w.base, New(r))
      && (forall i :: 0 <= i < |owned| ==> IsLive(w.base, owned[i]) && !Stored(w.contents, owned[i]))
      && (forall i, j :: 0 <= i < j < |owned| ==> owned[i] != owned[j])
    case Other(step) =>
      && !step.New? && Enabled(w.base, step)
      && (Consumed(step).Some? ==> !Stored(w.contents, Consumed(step).value))
  }

  /** What is left of the contents when some values are destroyed or moved out: their handles are then
      owned by the thread that did it, which drops them one by one. */
  function Living(contents: map<Cell, seq<Name>>, s: State): map<Cell, seq<Name>> {
    map cell | cell in contents && cell in s.strong :: contents[cell]
  }

  function After(w: World, move: Move): World
    requires match move case Create(r, _) => Enabled(w.base, New(r)) case Other(step) => Enabled(w.base, step)
  {
    match move
    case Create(r, owned) =>
      var s := Next(w.base, New(r));
      World(s, Living(w.contents[w.base.made := owned], s))
    case Other(step) =>
      var s := Next(w.base, step);
      World(s, Living(w.contents, s))
  }

  // ----- The invariant -----

  /** A value owns handles of older objects only, and they are alive. */
  ghost predicate OwnsOlder(s: State, cell: Cell, owned: seq<Name>) {
    forall i :: 0 <= i < |owned| ==> IsLive(s, owned[i]) && s.refs[owned[i]].cell < cell
  }

  ghost predicate WorldInv(w: World) {
    && Inv(w.base)
    && (forall cell :: cell in w.contents ==> cell in w.base.strong && OwnsOlder(w.base, cell, w.contents[cell]))
  }

  /** A step leaves the handles alone that it does not use up. */
  lemma HandleStays(s: State, step: Step, x: Name)
    requires Inv(s) && Enabled(s, step) && IsLive(s, x) && Consumed(step) != Some(x)
    ensures x in Next(s, step).refs && Next(s, step).refs[x] == s.refs[x]
  {
    assert RefFits(s, x);
  }

  /** Every stored handle is alive, and of an object older than the youngest that is allocated. */
  lemma StoredBelow(w: World, youngest: Cell)
    requires WorldInv(w) && forall cell :: cell in w.base.strong ==> cell <= youngest
    ensures forall x :: Stored(w.contents, x) ==> IsLive(w.base, x) && w.base.refs[x].cell < youngest
  {
    forall x | Stored(w.contents, x) ensures IsLive(w.base, x) && w.base.refs[x].cell < youngest {
      var cell, i :| cell in w.contents && 0 <= i < |w.contents[cell]| && w.contents[cell][i] == x;
      assert OwnsOlder(w.base, cell, w.contents[cell]);
    }
  }

  lemma OwnsOlderStays(w: World, step: Step, cell: Cell)
    requires WorldInv(w) && Enabled(w.base, step) && cell in w.contents
    requires Consumed(step).Some? ==> !Stored(w.contents, Consumed(step).value)
    ensures OwnsOlder(Next(w.base, step), cell, w.contents[cell])
  {
    var owned := w.contents[cell];
    assert OwnsOlder(w.base, cell, owned);
    forall i | 0 <= i < |owned|
      ensures IsLive(Next(w.base, step), owned[i]) && Next(w.base, step).refs[owned[i]].cell < cell
    {
      assert Stored(w.contents, owned[i]);
      HandleStays(w.base, step, owned[i]);
    }
  }

  lemma MoveKeepsInv(w: World, move: Move)
    requires WorldInv(w) && Possible(w, move) && !After(w, move).base.collided
    ensures WorldInv(After(w, move))
  {
    match move {
      case Create(r, owned) => CreateKeepsInv(w, r, owned);
      case Other(step) =>
        StepKeepsInv(w.base, step);
        forall cell | cell in After(w, move).contents
          ensures OwnsOlder(After(w, move).base, cell, w.contents[cell])
        {
          OwnsOlderStays(w, step, cell);
        }
    }
  }

  lemma CreateKeepsInv(w: World, r: Name, owned: seq<Name>)
    requires WorldInv(w) && Possible(w, Create(r, owned)) && !After(w, Create(r, owned)).base.collided
    ensures WorldInv(After(w, Create(r, owned)))
  {
    var s := Next(w.base, New(r));
    CollisionsAreOfNew(w.base, New(r));
    StepKeepsInv(w.base, New(r));
    StoredBelow(w, w.base.made);
    forall cell | cell in w.contents ensures OwnsOlder(s, cell, w.contents[cell]) && cell < w.base.made {
      OwnsOlderStays(w, New(r), cell);
    }
    forall i | 0 <= i < |owned| ensures IsLive(s, owned[i]) && s.refs[owned[i]].cell < w.base.made {
      HandleStays(w.base, New(r), owned[i]);
      assert RefFits(w.base, owned[i]);
    }
  }

  // ----- Runs -----

  ghost predicate Legal(w: World, moves: seq<Move>)
    decreases |moves|
  {
    moves == [] || (Possible(w, moves[0]) && Legal(After(w, moves[0]), moves[1..]))
  }

  ghost function AfterAll(w: World, moves: seq<Move>): World
    requires Legal(w, moves)
    decreases |moves|
  {
    if moves == [] then w else AfterAll(After(w, moves[0]), moves[1..])
  }

  lemma {:induction false} CollidedStays(w: World, moves: seq<Move>)
    requires Legal(w, moves) && w.base.collided
    ensures AfterAll(w, moves).base.collided
    decreases |moves|
  {
    if moves != [] {
      CollisionsAreOfNew(w.base, if moves[0].Create? then New(moves[0].r) else moves[0].step);
      CollidedStays(After(w, moves[0]), moves[1..]);
    }
  }

  lemma {:induction false} RunKeepsWorldInv(w: World, moves: seq<Move>)
    requires WorldInv(w) && Legal(w, moves) && !AfterAll(w, moves).base.collided
    ensures WorldInv(AfterAll(w, moves))
    decreases |moves|
  {
    if moves != [] {
      if After(w, moves[0]).base.collided {
        CollidedStays(After(w, moves[0]), moves[1..]);
      }
      MoveKeepsInv(w, moves[0]);
      RunKeepsWorldInv(After(w, moves[0]), moves[1..]);
    }
  }

  // ----- What every run guarantees -----

  /** In every run without a reused id, whatever a living value owns is itself alive: its object is in the
      pool, allocated and not destroyed, and no value was destroyed twice. */
  lemma OwnedObjectsLive(moves: seq<Move>, cell: Cell, i: nat)
    requires Legal(NOTHING, moves) && !AfterAll(NOTHING, moves).base.collided
    requires cell in AfterAll(NOTHING, moves).contents && i < |AfterAll(NOTHING, moves).contents[cell]|
    ensures var w := AfterAll(NOTHING, moves);
            var r := w.contents[cell][i];
            && IsLive(w.base, r) && Pooled(w.base, w.base.refs[r].cell)
            && w.base.refs[r].cell in w.base.strong && w.base.refs[r].cell !in w.base.destroyed
            && DestroyedOnce(w.base)
  {
    EmptyInv();
    RunKeepsWorldInv(NOTHING, moves);
    var w := AfterAll(NOTHING, moves);
    assert OwnsOlder(w.base, cell, w.contents[cell]);
    assert RefFits(w.base, w.contents[cell][i]);
    assert ObjectFits(w.base, w.base.refs[w.contents[cell][i]].cell);
  }

  lemma {:induction false} GreatestOf(cells: set<Cell>) returns (c: Cell)
    requires cells != {}
    ensures c in cells && forall d :: d in cells ==> d <= c
  {
    c :| c in cells;
    if cells != {c} {
      var d := GreatestOf(cells - {c});
      assert forall x :: x in cells ==> x == c || x in cells - {c};
      c := if d > c then d else c;
    }
  }

  /** A greatest living value is owned by something outside: no other value is young enough to own it. */
  lemma YoungestHasOutsideOwner(w: World, c: Cell)
    requires WorldInv(w) && c in w.base.strong && forall d :: d in w.base.strong ==> d <= c
    ensures exists r :: r in w.base.refs && !Stored(w.contents, r)
  {
    var s := w.base;
    assert ObjectFits(s, c);
    var r: Name;
    if Owners(s.refs, c) != {} {
      r :| r in Owners(s.refs, c);
    } else {
      assert Pooled(s, c) && |Counters(s.refs, IdAt(c))| >= 1;
      r :| r in Counters(s.refs, IdAt(c));
    }
    assert RefFits(s, r);
    StoredBelow(w, c);
  }

  /** Cascades leave nothing behind: when the only references left are the ones inside values, there are no
      values, no pool entries and no references. */
  lemma CascadesLeaveNothing(moves: seq<Move>)
    requires Legal(NOTHING, moves) && !AfterAll(NOTHING, moves).base.collided
    requires var w := AfterAll(NOTHING, moves); forall r :: r in w.base.refs ==> Stored(w.contents, r)
    ensures var s := AfterAll(NOTHING, moves).base; s.refs == map[] && s.pool.entries == map[] && s.strong == map[]
  {
    EmptyInv();
    RunKeepsWorldInv(NOTHING, moves);
    var w := AfterAll(NOTHING, moves);
    if w.base.strong != map[] {
      var c := GreatestOf(w.base.strong.Keys);
      YoungestHasOutsideOwner(w, c);
    }
    forall id | id in w.base.pool.entries ensures w.base.pool.entries[id].cell in w.base.strong {
      assert ObjectFits(w.base, w.base.pool.entries[id].cell);
    }
  }

  // ----- What a value owns is what it was made with -----

  lemma {:induction false} LegalAppend(w: World, a: seq<Move>, b: seq<Move>)
    requires Legal(w, a + b)
    ensures Legal(w, a) && Legal(AfterAll(w, a), b) && AfterAll(AfterAll(w, a), b) == AfterAll(w, a + b)
    decreases |a|
  {
    if a == [] {
      assert a + b == b;
    } else {
      assert (a + b)[1..] == a[1..] + b;
      LegalAppend(After(w, a[0]), a[1..], b);
    }
  }

  /** How many values these moves make. */
  function Created(moves: seq<Move>): nat {
    if moves == [] then 0 else (if moves[0].Create? then 1 else 0) + Created(moves[1..])
  }

  lemma {:induction false} MadeIsCreated(w: World, moves: seq<Move>)
    requires Legal(w, moves)
    ensures AfterAll(w, moves).base.made == w.base.made + Created(moves)
    decreases |moves|
  {
    if moves != [] {
      MadeIsCreated(After(w, moves[0]), moves[1..]);
    }
  }

  /** What is known of cell k once it is made. */
  ghost predicate OwnsSince(w: World, k: Cell, owned: seq<Name>) {
    k < w.base.made && (k in w.base.strong ==> k in w.contents && w.contents[k] == owned)
  }

  lemma OwnsSinceStays(w: World, move: Move, k: Cell, owned: seq<Name>)
    requires WorldInv(w) && Possible(w, move) && OwnsSince(w, k, owned)
    ensures OwnsSince(After(w, move), k, owned)
  {
    match move {
      case Create(r, others) => assert k != w.base.made;
      case Other(step) => NothingComesBack(w.base, step, k);
    }
  }

  /** A cell that is not allocated stays so, unless it is the one being made. */
  lemma NothingComesBack(s: State, step: Step, k: Cell)
    requires Enabled(s, step) && !step.New?
    ensures k in Next(s, step).strong ==> k in s.strong
  {}

  lemma {:induction false} OwnsSinceForGood(w: World, moves: seq<Move>, k: Cell, owned: seq<Name>)
    requires WorldInv(w) && Legal(w, moves) && !AfterAll(w, moves).base.collided && OwnsSince(w, k, owned)
    ensures OwnsSince(AfterAll(w, moves), k, owned)
    decreases |moves|
  {
    if moves != [] {
      var next := After(w, moves[0]);
      if next.base.collided {
        CollidedStays(next, moves[1..]);
      }
      OwnsSinceStays(w, moves[0], k, owned);
      MoveKeepsInv(w, moves[0]);
      OwnsSinceForGood(next, moves[1..], k, owned);
    }
  }

  /** A run in which some move makes a value that takes over the handles `owned`. */
  ghost predicate Makes(before: seq<Move>, r: Name, owned: seq<Name>, after: seq<Move>) {
    var moves := before + [Create(r, owned)] + after;
    Legal(NOTHING, moves) && !AfterAll(NOTHING, moves).base.collided
  }

  /** The value made by the k-th `Create` owns, as long as it is allocated, exactly the handles it was made
      with; what is not allocated owns nothing. */
  lemma ValuesOwnWhatTheyWereMadeWith(before: seq<Move>, r: Name, owned: seq<Name>, after: seq<Move>)
    requires Makes(before, r, owned, after)
    ensures var w := AfterAll(NOTHING, before + [Create(r, owned)] + after);
            var k := Created(before);
            && (k in w.base.strong ==> k in w.contents && w.contents[k] == owned)
            && (forall cell :: cell in w.contents ==> cell in w.base.strong)
  {
    var create := Create(r, owned);
    assert before + [create] + after == before + ([create] + after);
    LegalAppend(NOTHING, before, [create] + after);
    MadeIsCreated(NOTHING, before);
    var w := AfterAll(NOTHING, before);
    assert ([create] + after)[0] == create && ([create] + after)[1..] == after;
    if w.base.collided {
      CollidedStays(w, [create] + after);
    }
    EmptyInv();
    RunKeepsWorldInv(NOTHING, before);
    RunKeepsWorldInv(NOTHING, before + [create] + after);
    var next := After(w, create);
    if next.base.collided {
      CollidedStays(next, after);
    }
    MoveKeepsInv(w, create);
    OwnsSinceForGood(next, after, Created(before), owned);
  }

  /** So nobody else can use up those handles, or put them into another value, while the value lives. */
  lemma OwnedHandlesAreOutOfReach(before: seq<Move>, r: Name, owned: seq<Name>, after: seq<Move>, move: Move, i: nat)
    requires Makes(before, r, owned, after) && i < |owned|
    requires Created(before) in AfterAll(NOTHING, before + [Create(r, owned)] + after).base.strong
    requires Possible(AfterAll(NOTHING, before + [Create(r, owned)] + after), move)
    ensures move.Other? && !move.step.CountUp? ==> move.step.r != owned[i]
    ensures move.Create? ==> owned[i] !in move.owned
  {
    ValuesOwnWhatTheyWereMadeWith(before, r, owned, after);
    assert Stored(AfterAll(NOTHING, before + [Create(r, owned)] + after).contents, owned[i]);
  }
}
