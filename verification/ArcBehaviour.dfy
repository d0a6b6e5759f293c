/** What the tests of the trait expect of every counted handle, said of the plain model: `MoiArcRefinesStdArc`
    carries it over to the pool. */
module ArcBehaviour {
  import opened Wrappers
  import opened MoiArcPool
  import opened MoiArcInterleaving
  import opened MoiArcRefinement

  const A := Name(0)
  const B := Name(1)
  const W := Name(2)

  /** The only object made so far, shared n times. */
  function Shared(refs: map<Name, StdRef>, n: nat): StdState {
    StdState(1, map[0 := n], refs, map[0 := []], [])
  }

  /** The object is gone: moved out, or destroyed. */
  function Gone(refs: map<Name, StdRef>, destroyed: seq<Cell>): StdState {
    StdState(1, map[], refs, map[], destroyed)
  }

  ghost predicate Does(a: StdState, op: Op, b: StdState, reply: Reply) {
    Legal(a, op) && StdApply(a, op) == Some((b, reply))
  }

  /** One reference less: at the last one the value is destroyed. */
  lemma OneLess(refs: map<Name, StdRef>, n: nat, r: Name)
    requires r in refs && refs[r].cell == 0
    ensures IsRef(Shared(refs, n), r) && Root(Shared(refs, n), r)
    ensures StdDropOne(Shared(refs, n), r) == Some(if n <= 1 then Gone(refs - {r}, [0]) else Shared(refs - {r}, n - 1))
  {
    var a := Shared(refs, n);
    if n <= 1 {
      assert a.strong - {0} == map[] && a.contents - {0} == map[] && a.destroyed + [0] == [0];
      assert a.contents[0] == [];
      assert StdLoseRef(a, r).0 == Gone(refs - {r}, [0]) && StdLoseRef(a, r).1 == [];
    } else {
      assert a.strong[0 := n - 1] == map[0 := n - 1];
      assert StdLoseRef(a, r).0 == Shared(refs - {r}, n - 1);
      assert StdLoseRef(a, r) == (Shared(refs - {r}, n - 1), []);
    }
  }

  /** A handle that is made can be looked at; dropping the only one destroys the value. */
  lemma SimpleDrop()
    ensures Does(STD_EMPTY, MakeNew(A, []), Shared(map[A := Handle(0)], 1), Unit)
    ensures Does(Shared(map[A := Handle(0)], 1), AsRef(A), Shared(map[A := Handle(0)], 1), Seen(0))
    ensures Does(Shared(map[A := Handle(0)], 1), DropHandle(A), Gone(map[], [0]), Unit)
  {
    OneLess(map[A := Handle(0)], 1, A);
    assert map[A := Handle(0)] - {A} == map[];
    assert STD_EMPTY.refs[A := Handle(0)] == map[A := Handle(0)];
  }

  /** With a clone, the first drop destroys nothing, whichever handle goes. */
  lemma SimpleClone()
    ensures Does(Shared(map[A := Handle(0)], 1), Clone(A, B), Shared(map[A := Handle(0), B := Handle(0)], 2), Unit)
    ensures Does(Shared(map[A := Handle(0), B := Handle(0)], 2), DropHandle(A), Shared(map[B := Handle(0)], 1), Unit)
    ensures Does(Shared(map[A := Handle(0), B := Handle(0)], 2), DropHandle(B), Shared(map[A := Handle(0)], 1), Unit)
  {
    var both := map[A := Handle(0), B := Handle(0)];
    OneLess(both, 2, A);
    OneLess(both, 2, B);
    assert map[A := Handle(0)][B := Handle(0)] == both && both - {A} == map[B := Handle(0)] && both - {B} == map[A := Handle(0)];
    assert Shared(map[A := Handle(0)], 1).strong[0 := 2] == map[0 := 2];
  }

  /** A sole handle gives its value up, which is not destroyed by that. */
  lemma UnwrapOfOne()
    ensures Does(Shared(map[A := Handle(0)], 1), Unwrap(A), Gone(map[], []), Moved(0, []))
    ensures Does(Shared(map[A := Handle(0)], 1), Inner(A), Gone(map[], []), Moved(0, []))
  {
    var a := Shared(map[A := Handle(0)], 1);
    assert a.refs - {A} == map[] && a.strong - {0} == map[] && a.contents - {0} == map[];
  }

  /** One of two is refused: `try_unwrap` hands it back, `into_inner` drops it. */
  lemma UnwrapOfTwo()
    ensures var both := Shared(map[A := Handle(0), B := Handle(0)], 2);
            && Does(both, Unwrap(A), both, Refused)
            && Does(both, Inner(A), Shared(map[B := Handle(0)], 1), Refused)
  {
    OneLess(map[A := Handle(0), B := Handle(0)], 2, A);
    assert map[A := Handle(0), B := Handle(0)] - {A} == map[B := Handle(0)];
  }

  /** A raw id keeps the value alive, and becomes a handle again. */
  lemma RawAndBack()
    ensures Does(Shared(map[A := Handle(0)], 1), ToRaw(A, W), Shared(map[W := Pointer(0)], 1), Unit)
    ensures Does(Shared(map[W := Pointer(0)], 1), OfRaw(W), Shared(map[W := Handle(0)], 1), Unit)
  {
    assert (map[A := Handle(0)] - {A})[W := Pointer(0)] == map[W := Pointer(0)];
    assert map[W := Pointer(0)][W := Handle(0)] == map[W := Handle(0)];
  }

  /** An incremented count outlives the handle. */
  lemma CountUp()
    ensures Does(Shared(map[A := Handle(0)], 1), IncrementCount(A, W), Shared(map[A := Handle(0), W := Pointer(0)], 2), Unit)
    ensures Does(Shared(map[A := Handle(0), W := Pointer(0)], 2), DropHandle(A), Shared(map[W := Pointer(0)], 1), Unit)
  {
    var both := map[A := Handle(0), W := Pointer(0)];
    OneLess(both, 2, A);
    assert map[A := Handle(0)][W := Pointer(0)] == both && both - {A} == map[W := Pointer(0)];
    assert Shared(map[A := Handle(0)], 1).strong[0 := 2] == map[0 := 2];
  }

  /** A decrement takes it back, and destroys the value if it was the last. */
  lemma CountDown()
    ensures Does(Shared(map[A := Handle(0), W := Pointer(0)], 2), DecrementCount(W), Shared(map[A := Handle(0)], 1), Unit)
    ensures Does(Shared(map[W := Pointer(0)], 1), DecrementCount(W), Gone(map[], [0]), Unit)
  {
    var both := map[A := Handle(0), W := Pointer(0)];
    OneLess(both, 2, W);
    OneLess(map[W := Pointer(0)], 1, W);
    assert both - {W} == map[A := Handle(0)] && map[W := Pointer(0)] - {W} == map[];
  }

  /** A value that owns the only handle of another one is destroyed before it. */
  lemma OwnerGoesFirst()
    ensures var a := StdState(2, map[0 := 1, 1 := 1], map[A := Handle(0), B := Handle(1)], map[0 := [], 1 := [A]], []);
            && Does(Shared(map[A := Handle(0)], 1), MakeNew(B, [A]), a, Unit)
            && StdDropOne(a, B) == Some(StdState(2, map[], map[], map[], [1, 0]))
  {
    var a := StdState(2, map[0 := 1, 1 := 1], map[A := Handle(0), B := Handle(1)], map[0 := [], 1 := [A]], []);
    var b := StdState(2, map[0 := 1], map[A := Handle(0)], map[0 := []], [1]);
    var c := StdState(2, map[], map[], map[], [1, 0]);
    var first := Shared(map[A := Handle(0)], 1);
    assert first.refs[B := Handle(1)] == a.refs && first.strong[1 := 1] == a.strong && first.contents[1 := [A]] == a.contents;
    assert a.strong - {1} == b.strong && a.refs - {B} == b.refs && a.contents - {1} == b.contents && a.destroyed + [1] == [1];
    assert StdLoseRef(a, B).0 == b && StdLoseRef(a, B).1 == [A];
    assert b.strong - {0} == map[] && b.refs - {A} == map[] && b.contents - {0} == map[] && b.destroyed + [0] == [1, 0];
    assert StdLoseRef(b, A).0 == c && StdLoseRef(b, A).1 + [A][1..] == [];
    assert StdDropAll(b, [A]) == StdDropAll(c, []);
  }
}
