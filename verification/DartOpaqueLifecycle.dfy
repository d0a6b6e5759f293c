/** Persistent handles of Dart objects: shared counting, and deletion in the isolate that made them. */
module DartOpaqueLifecycle {
  import opened Wrappers

  /** The isolate that a thread is in. */
  type Context = nat

  // ----- One handle: `DartOpaqueNonClone` -----

  /** What becomes of the boxed handle when its owner is done with it. */
  datatype Fate = GivenToCaller | DeletedHere | SentToPort | PostFailed

  /** `into_inner` and `drop` of the inner value, by a thread in `current`. A panic of `into_inner` in
      the wrong context drops the value, which then leaves by the port. */
  function FateOf(home: Context, current: Context, wantsInner: bool, portIsOpen: bool): Fate {
    if current == home then (if wantsInner then GivenToCaller else DeletedHere)
    else if portIsOpen then SentToPort
    else PostFailed
  }

  class DartOpaqueNonClone {
    const home: Context
    const handle: nat
    var persistentHandle: Option<nat>

    constructor (handle: nat, current: Context)
      ensures persistentHandle == Some(handle) && home == current && this.handle == handle
    {
      this.handle, home := handle, current;
      persistentHandle := Some(handle);
    }

    predicate CheckContext(current: Context) {
      current == home
    }

    /** `drop`: an emptied value does nothing. */
    method Drop(current: Context, portIsOpen: bool) returns (fate: Option<Fate>)
      modifies this
      ensures persistentHandle == None
      ensures old(persistentHandle) == None ==> fate == None
      ensures old(persistentHandle) != None ==>
                fate == Some(if current == home then DeletedHere else if portIsOpen then SentToPort else PostFailed) &&
                fate == Some(FateOf(home, current, false, portIsOpen))
    {
      fate := None;
      if persistentHandle.Some? {
        persistentHandle := None;
        fate := Some(if CheckContext(current) then DeletedHere else if portIsOpen then SentToPort else PostFailed);
      }
    }

    /** `into_inner`: None is a panic. Either way the value is dropped at the end. */
    method IntoInner(current: Context, portIsOpen: bool) returns (inner: Option<nat>, ghost fate: Fate)
      requires persistentHandle == Some(handle)
      modifies this
      ensures persistentHandle == None && fate == FateOf(home, current, true, portIsOpen)
      ensures current == home ==> inner == Some(handle) && fate == GivenToCaller
      ensures current != home ==> inner == None && fate == if portIsOpen then SentToPort else PostFailed
    {
      if !CheckContext(current) {
        var dropped := Drop(current, portIsOpen);
        return None, dropped.value;
      }
      inner := persistentHandle;
      persistentHandle := None;
      fate := GivenToCaller;
      var nothing := Drop(current, portIsOpen);
      assert nothing == None;
    }
  }

  // ----- All handles -----

  /** Strong count of the shared inner value; how many Rust values and how many raw pointers share it. */
  datatype Shared = Shared(home: Context, port: Context, strong: nat, values: nat, raws: nat)

  /** A thread that brought the count to zero and now owns the inner value. */
  datatype Owner = Owner(current: Context, wantsInner: bool)

  datatype Kind = Made | Used | Posted | Failed | Taken | Deleted

  datatype Event = Event(kind: Kind, obj: nat, current: Context)

  datatype State = State(shared: map<nat, Shared>, owners: map<nat, Owner>, mail: seq<nat>, log: seq<Event>, aborted: bool)

  datatype Step =
    | Make(obj: nat, current: Context, port: Context)
    | Clone(obj: nat)
    | IntoRaw(obj: nat)
    | FromRaw(obj: nat)
    | CreateDartHandle(obj: nat, current: Context)
    | Drop(obj: nat, current: Context)
    | IntoInner(obj: nat, current: Context)
    | Finish(obj: nat, portIsOpen: bool)
    | Deliver(index: nat)

  const START := State(map[], map[], [], [], false)

  /** Steps that safe code, or correct use of raw pointers, can take. */
  predicate Enabled(s: State, step: Step) {
    && !s.aborted
    && match step
       case Make(o, _, _) => o !in s.shared
       case Clone(o) => o in s.shared && s.shared[o].values > 0
       case IntoRaw(o) => o in s.shared && s.shared[o].values > 0
       case FromRaw(o) => o in s.shared && s.shared[o].raws > 0
       case CreateDartHandle(o, _) => o in s.shared && s.shared[o].values > 0
       case Drop(o, _) => o in s.shared && s.shared[o].values > 0 && s.shared[o].strong > 0
       case IntoInner(o, _) => o in s.shared && s.shared[o].values > 0
       case Finish(o, _) => o in s.shared && o in s.owners
       case Deliver(i) => i < |s.mail| && s.mail[i] in s.shared
  }

  function Logged(s: State, kind: Kind, o: nat, current: Context): State {
    s.(log := s.log + [Event(kind, o, current)])
  }

  function MakeStep(s: State, o: nat, current: Context, port: Context): State {
    Logged(s.(shared := s.shared[o := Shared(current, port, 1, 1, 0)]), Made, o, current)
  }

  function DropStep(s: State, o: nat, current: Context): State
    requires o in s.shared && s.shared[o].values > 0 && s.shared[o].strong > 0
  {
    var x := s.shared[o];
    var left := s.(shared := s.shared[o := x.(strong := x.strong - 1, values := x.values - 1)]);
    if x.strong == 1 then left.(owners := left.owners[o := Owner(current, false)]) else left
  }

  /** `Arc::try_unwrap` of a shared value gives the caller its value back. */
  function IntoInnerStep(s: State, o: nat, current: Context): State
    requires o in s.shared && s.shared[o].values > 0
  {
    var x := s.shared[o];
    if x.strong == 1 then
      s.(shared := s.shared[o := x.(strong := 0, values := x.values - 1)], owners := s.owners[o := Owner(current, true)])
    else s
  }

  function FinishStep(s: State, o: nat, portIsOpen: bool): (t: State)
    requires o in s.shared && o in s.owners
    ensures t.shared == s.shared
  {
    var owner := s.owners[o];
    var rest := s.(owners := s.owners - {o});
    match FateOf(s.shared[o].home, owner.current, owner.wantsInner, portIsOpen)
    case GivenToCaller => Logged(rest, Taken, o, owner.current)
    case DeletedHere => Logged(rest, Deleted, o, owner.current)
    case SentToPort => Logged(rest.(mail := rest.mail + [o]), Posted, o, owner.current)
    case PostFailed => Logged(rest, Failed, o, owner.current)
  }

  /** The port's isolate drops the box. In a foreign isolate the box panics, its field is dropped all
      the same, and the panic ends the process at the C boundary. */
  function DeliverStep(s: State, i: nat): State
    requires i < |s.mail| && s.mail[i] in s.shared
  {
    var o := s.mail[i];
    var x := s.shared[o];
    Logged(s.(mail := s.mail[..i] + s.mail[i + 1..], aborted := x.port != x.home), Deleted, o, x.port)
  }

  function Next(s: State, step: Step): State
    requires Enabled(s, step)
  {
    match step
    case Make(o, c, port) => MakeStep(s, o, c, port)
    case Clone(o) =>
      var x := s.shared[o];
      s.(shared := s.shared[o := x.(strong := x.strong + 1, values := x.values + 1)])
    case IntoRaw(o) =>
      var x := s.shared[o];
      s.(shared := s.shared[o := x.(values := x.values - 1, raws := x.raws + 1)])
    case FromRaw(o) =>
      var x := s.shared[o];
      s.(shared := s.shared[o := x.(values := x.values + 1, raws := x.raws - 1)])
    case CreateDartHandle(o, c) => if c == s.shared[o].home then Logged(s, Used, o, c) else s
    case Drop(o, c) => DropStep(s, o, c)
    case IntoInner(o, c) => IntoInnerStep(s, o, c)
    case Finish(o, open) => FinishStep(s, o, open)
    case Deliver(i) => DeliverStep(s, i)
  }

  // ----- Where a handle is -----

  function Count(log: seq<Event>, kind: Kind, o: nat): nat {
    if log == [] then 0
    else
      var last := log[|log| - 1];
      Count(log[..|log| - 1], kind, o) + if last.kind == kind && last.obj == o then 1 else 0
  }

  function Held(s: State, o: nat): nat {
    if o in s.shared && s.shared[o].strong > 0 then 1 else 0
  }

  function Owned(s: State, o: nat): nat {
    if o in s.owners then 1 else 0
  }

  function InFlight(s: State, o: nat): nat {
    multiset(s.mail)[o]
  }

  /** Handles that reached the end of their path: deleted, taken out, or leaked. */
  function Ended(log: seq<Event>, o: nat): nat {
    Count(log, Deleted, o) + Count(log, Taken, o) + Count(log, Failed, o)
  }

  predicate Final(kind: Kind) {
    kind == Deleted || kind == Taken || kind == Failed
  }

  /** Every handle ever made is at exactly one place; the strong count is the number of sharers. */
  predicate Placed(s: State, o: nat) {
    && Held(s, o) + Owned(s, o) + InFlight(s, o) + Ended(s.log, o) == (if o in s.shared then 1 else 0)
    && (o in s.shared ==> s.shared[o].strong == s.shared[o].values + s.shared[o].raws)
  }

  /** Handles are used and taken at home, and deleted there or where their port leads. */
  predicate RightPlace(s: State, e: Event) {
    e.obj in s.shared
    && var x := s.shared[e.obj];
       match e.kind
       case Used => e.current == x.home
       case Taken => e.current == x.home
       case Made => e.current == x.home
       case Deleted => e.current == x.home || (e.current == x.port && s.aborted)
       case Posted => e.current != x.home
       case Failed => e.current != x.home
  }

  /** No event of a handle follows its end. */
  predicate NothingAfterTheEnd(log: seq<Event>) {
    forall i, j :: 0 <= i < j < |log| && Final(log[i].kind) ==> log[i].obj != log[j].obj
  }

  ghost predicate Inv(s: State) {
    && (forall o: nat :: Placed(s, o))
    && (forall i :: 0 <= i < |s.log| ==> RightPlace(s, s.log[i]))
    && NothingAfterTheEnd(s.log)
  }

  lemma CountAppend(log: seq<Event>, e: Event, kind: Kind, o: nat)
    ensures Count(log + [e], kind, o) == Count(log, kind, o) + if e.kind == kind && e.obj == o then 1 else 0
  {
    assert (log + [e])[..|log|] == log;
  }

  lemma {:induction false} CountedIfPresent(log: seq<Event>, i: nat)
    requires i < |log|
    ensures Count(log, log[i].kind, log[i].obj) > 0
  {
    if i < |log| - 1 {
      CountedIfPresent(log[..|log| - 1], i);
    }
  }

  /** What a step does to the log: at most one event more, of a handle that has not ended. */
  lemma LogGrows(s: State, step: Step)
    requires Enabled(s, step) && forall o: nat :: Placed(s, o)
    ensures var t := Next(s, step);
            t.log == s.log
            || exists e: Event :: t.log == s.log + [e] && Ended(s.log, e.obj) == 0 && RightPlace(t, e)
  {
    var t := Next(s, step);
    match step {
      case Make(o, c, _) =>
        assert Placed(s, o);
        assert t.log == s.log + [Event(Made, o, c)];
      case CreateDartHandle(o, c) =>
        assert Placed(s, o);
        assert c == s.shared[o].home ==> t.log == s.log + [Event(Used, o, c)];
      case Finish(o, open) =>
        assert Placed(s, o);
        assert t.log == s.log + [t.log[|s.log|]];
      case Deliver(i) =>
        assert Placed(s, s.mail[i]);
        assert s.mail[i] in multiset(s.mail);
        assert t.log == s.log + [t.log[|s.log|]];
      case Clone(_) =>
      case IntoRaw(_) =>
      case FromRaw(_) =>
      case Drop(_, _) =>
      case IntoInner(_, _) =>
    }
  }

  lemma EndedAppend(log: seq<Event>, e: Event, o: nat)
    ensures Ended(log + [e], o) == Ended(log, o) + if Final(e.kind) && e.obj == o then 1 else 0
  {
    CountAppend(log, e, Deleted, o);
    CountAppend(log, e, Taken, o);
    CountAppend(log, e, Failed, o);
  }

  lemma MailRemoved(mail: seq<nat>, i: nat)
    requires i < |mail|
    ensures multiset(mail) == multiset(mail[..i] + mail[i + 1..]) + multiset{mail[i]}
  {
    assert mail == mail[..i] + [mail[i]] + mail[i + 1..];
  }

  lemma DeliverKeepsPlaced(s: State, i: nat, o: nat)
    requires i < |s.mail| && s.mail[i] in s.shared && Placed(s, o)
    ensures Placed(DeliverStep(s, i), o)
  {
    var t := DeliverStep(s, i);
    MailRemoved(s.mail, i);
    EndedAppend(s.log, t.log[|s.log|], o);
  }

  lemma PlacedAfterMove(s: State, t: State, o: nat)
    requires Placed(s, o) && t.shared == s.shared
    requires Owned(t, o) + InFlight(t, o) + Ended(t.log, o) == Owned(s, o) + InFlight(s, o) + Ended(s.log, o)
    ensures Placed(t, o)
  {
  }

  lemma OwnedAfterFinish(s: State, obj: nat, portIsOpen: bool, o: nat)
    requires obj in s.shared && obj in s.owners
    ensures Owned(FinishStep(s, obj, portIsOpen), o) == if o == obj then 0 else Owned(s, o)
  {
  }

  lemma MovedByFinish(s: State, obj: nat, portIsOpen: bool, o: nat)
    requires obj in s.shared && obj in s.owners
    ensures var t := FinishStep(s, obj, portIsOpen);
            InFlight(t, o) + Ended(t.log, o) == InFlight(s, o) + Ended(s.log, o) + if o == obj then 1 else 0
  {
    var t := FinishStep(s, obj, portIsOpen);
    var e := t.log[|s.log|];
    EndedAppend(s.log, e, o);
    assert t.log == s.log + [e] && e.obj == obj;
    assert t.mail == if e.kind == Posted then s.mail + [obj] else s.mail;
    assert Final(e.kind) <==> e.kind != Posted;
  }

  lemma FinishKeepsPlaced(s: State, obj: nat, portIsOpen: bool, o: nat)
    requires obj in s.shared && obj in s.owners && Placed(s, o)
    ensures Placed(FinishStep(s, obj, portIsOpen), o)
  {
    OwnedAfterFinish(s, obj, portIsOpen, o);
    MovedByFinish(s, obj, portIsOpen, o);
    PlacedAfterMove(s, FinishStep(s, obj, portIsOpen), o);
  }

  lemma ReleaseKeepsPlaced(s: State, obj: nat, current: Context, o: nat)
    requires obj in s.shared && s.shared[obj].values > 0 && s.shared[obj].strong > 0 && Placed(s, o) && Placed(s, obj)
    ensures Placed(DropStep(s, obj, current), o) && Placed(IntoInnerStep(s, obj, current), o)
  {
  }

  lemma LoggedKeepsPlaced(s: State, kind: Kind, obj: nat, current: Context, o: nat)
    requires !Final(kind) && Placed(s, o)
    ensures Placed(Logged(s, kind, obj, current), o)
  {
    EndedAppend(s.log, Event(kind, obj, current), o);
  }

  lemma MakeKeepsPlaced(s: State, obj: nat, current: Context, port: Context, o: nat)
    requires obj !in s.shared && Placed(s, o)
    ensures Placed(MakeStep(s, obj, current, port), o)
  {
    EndedAppend(s.log, Event(Made, obj, current), o);
  }

  lemma StepKeepsPlaced(s: State, step: Step, o: nat)
    requires Enabled(s, step) && forall x: nat :: Placed(s, x)
    ensures Placed(Next(s, step), o)
  {
    match step {
      case Deliver(i) => DeliverKeepsPlaced(s, i, o);
      case Finish(obj, open) => FinishKeepsPlaced(s, obj, open, o);
      case Make(obj, c, port) => MakeKeepsPlaced(s, obj, c, port, o);
      case CreateDartHandle(obj, c) => LoggedKeepsPlaced(s, Used, obj, c, o);
      case Drop(obj, c) => ReleaseKeepsPlaced(s, obj, c, o);
      case IntoInner(obj, c) => assert Placed(s, obj); ReleaseKeepsPlaced(s, obj, c, o);
      case Clone(obj) => assert Placed(s, obj) && Placed(s, o);
      case IntoRaw(obj) => assert Placed(s, o);
      case FromRaw(obj) => assert Placed(s, o);
    }
  }

  lemma StepKeepsLog(s: State, step: Step)
    requires Enabled(s, step) && Inv(s)
    ensures var t := Next(s, step);
            && (forall i :: 0 <= i < |t.log| ==> RightPlace(t, t.log[i]))
            && NothingAfterTheEnd(t.log)
  {
    var t := Next(s, step);
    LogGrows(s, step);
    assert forall e: Event :: RightPlace(s, e) ==> RightPlace(t, e);
    if t.log != s.log {
      var e: Event :| t.log == s.log + [e] && Ended(s.log, e.obj) == 0 && RightPlace(t, e);
      forall i | 0 <= i < |s.log| && Final(s.log[i].kind)
        ensures s.log[i].obj != e.obj
      {
        CountedIfPresent(s.log, i);
      }
    }
  }

  lemma StepKeepsInv(s: State, step: Step)
    requires Enabled(s, step) && Inv(s)
    ensures Inv(Next(s, step))
  {
    StepKeepsLog(s, step);
    forall o: nat ensures Placed(Next(s, step), o) {
      StepKeepsPlaced(s, step, o);
    }
  }

  // ----- Runs -----

  predicate Legal(s: State, steps: seq<Step>)
    decreases |steps|
  {
    steps == [] || (Enabled(s, steps[0]) && Legal(Next(s, steps[0]), steps[1..]))
  }

  function After(s: State, steps: seq<Step>): State
    requires Legal(s, steps)
    decreases |steps|
  {
    if steps == [] then s else After(Next(s, steps[0]), steps[1..])
  }

  lemma {:induction false} RunKeepsInv(s: State, steps: seq<Step>)
    requires Inv(s) && Legal(s, steps)
    ensures Inv(After(s, steps))
    decreases |steps|
  {
    if steps != [] {
      StepKeepsInv(s, steps[0]);
      RunKeepsInv(Next(s, steps[0]), steps[1..]);
    }
  }

  /** In every run every handle is at exactly one place: shared, owned by the thread that took the last
      share, in flight to its port, or ended by deletion, by being taken out, or by a failed post. */
  lemma EachHandleIsAtOnePlace(steps: seq<Step>, o: nat)
    requires Legal(START, steps)
    ensures var s := After(START, steps);
            Held(s, o) + Owned(s, o) + InFlight(s, o) + Count(s.log, Deleted, o) + Count(s.log, Taken, o)
            + Count(s.log, Failed, o) == if o in s.shared then 1 else 0
  {
    RunKeepsInv(START, steps);
    assert Placed(After(START, steps), o);
  }

  /** Taking the inner value succeeds exactly when no clone and no raw pointer shares it. */
  lemma IntoInnerExactlyWhenAlone(steps: seq<Step>, o: nat, current: Context)
    requires Legal(START, steps) && Enabled(After(START, steps), IntoInner(o, current))
    ensures var s := After(START, steps);
            var t := Next(s, IntoInner(o, current));
            (o in t.owners <==> s.shared[o].values + s.shared[o].raws == 1) && (o !in t.owners ==> t == s)
  {
    RunKeepsInv(START, steps);
    assert Placed(After(START, steps), o);
  }

  /** After a handle is deleted nothing happens to it: no second deletion and no use. */
  lemma DeletedOnceAndNeverUsedAfter(steps: seq<Step>, i: nat, j: nat)
    requires Legal(START, steps) && i < j < |After(START, steps).log|
    ensures var log := After(START, steps).log;
            log[i].kind == Deleted ==> log[j].obj != log[i].obj
  {
    RunKeepsInv(START, steps);
  }

  /** Every use happens in the isolate that made the handle. */
  lemma UsedAtHomeOnly(steps: seq<Step>, i: nat)
    requires Legal(START, steps) && i < |After(START, steps).log|
    ensures var s := After(START, steps);
            var e := s.log[i];
            (e.kind == Used || e.kind == Taken ==> e.obj in s.shared && e.current == s.shared[e.obj].home)
  {
    RunKeepsInv(START, steps);
    assert RightPlace(After(START, steps), After(START, steps).log[i]);
  }

  /** When every share is gone and every message delivered, a handle that was neither taken out nor
      refused by its port has been deleted. */
  lemma NothingIsLeaked(steps: seq<Step>, o: nat)
    requires Legal(START, steps)
    requires var s := After(START, steps);
             && o in s.shared && s.shared[o].values == 0 && s.shared[o].raws == 0
             && s.owners == map[] && s.mail == []
             && Count(s.log, Taken, o) == 0 && Count(s.log, Failed, o) == 0
    ensures Count(After(START, steps).log, Deleted, o) == 1
  {
    EachHandleIsAtOnePlace(steps, o);
    RunKeepsInv(START, steps);
    assert Placed(After(START, steps), o);
  }

  // ----- What each event comes from -----

  /** Everything in the state was caused by one of the steps done. */
  ghost predicate Explained(s: State, done: seq<Step>) {
    && (forall o :: o in s.owners ==> OwnerExplained(o, s.owners[o], done))
    && (forall i :: 0 <= i < |s.log| ==> EventExplained(s, s.log[i], done))
  }

  predicate OwnerExplained(o: nat, owner: Owner, done: seq<Step>) {
    (if owner.wantsInner then IntoInner(o, owner.current) else Drop(o, owner.current)) in done
  }

  predicate EventExplained(s: State, e: Event, done: seq<Step>) {
    e.obj in s.shared
    && match e.kind
       case Made => Make(e.obj, e.current, s.shared[e.obj].port) in done
       case Used => CreateDartHandle(e.obj, e.current) in done
       case Posted => Finish(e.obj, true) in done
       case Failed => Finish(e.obj, false) in done
       case Taken => IntoInner(e.obj, e.current) in done
       case Deleted =>
         || (Drop(e.obj, e.current) in done && e.current == s.shared[e.obj].home)
         || (Finish(e.obj, true) in done && e.current == s.shared[e.obj].port)
  }

  /** A message in flight was posted. */
  predicate MailExplained(s: State, done: seq<Step>) {
    forall i :: 0 <= i < |s.mail| ==> Finish(s.mail[i], true) in done
  }

  lemma OwnersStayExplained(s: State, done: seq<Step>, step: Step)
    requires Inv(s) && Enabled(s, step) && Explained(s, done)
    ensures forall o :: o in Next(s, step).owners ==> OwnerExplained(o, Next(s, step).owners[o], done + [step])
  {
    forall o | o in Next(s, step).owners
      ensures OwnerExplained(o, Next(s, step).owners[o], done + [step])
    {
      assert Placed(s, o);
      assert o in s.owners ==> OwnerExplained(o, s.owners[o], done);
    }
  }

  predicate SamePlaces(x: Shared, y: Shared) {
    x.home == y.home && x.port == y.port
  }

  lemma EventStaysExplained(s: State, t: State, e: Event, done: seq<Step>, step: Step)
    requires EventExplained(s, e, done)
    requires forall o :: o in s.shared ==> o in t.shared && SamePlaces(s.shared[o], t.shared[o])
    ensures EventExplained(t, e, done + [step])
  {}

  lemma SharedStays(s: State, step: Step)
    requires Enabled(s, step)
    ensures forall o :: o in s.shared ==> o in Next(s, step).shared && SamePlaces(s.shared[o], Next(s, step).shared[o])
  {}

  lemma NewEventExplained(s: State, done: seq<Step>, step: Step)
    requires Enabled(s, step) && Explained(s, done) && MailExplained(s, done)
    ensures var t := Next(s, step);
            t.log == s.log || (|t.log| == |s.log| + 1 && t.log[..|s.log|] == s.log
                               && EventExplained(t, t.log[|s.log|], done + [step]))
  {
    match step {
      case Finish(o, open) =>
        assert OwnerExplained(o, s.owners[o], done);
        assert FinishStep(s, o, open).log[..|s.log|] == s.log;
      case Deliver(i) => assert Finish(s.mail[i], true) in done;
      case _ =>
    }
  }

  lemma MailStaysExplained(s: State, done: seq<Step>, step: Step)
    requires Enabled(s, step) && MailExplained(s, done)
    ensures MailExplained(Next(s, step), done + [step])
  {
    var t := Next(s, step);
    forall i | 0 <= i < |t.mail| ensures Finish(t.mail[i], true) in done + [step] {
      if step.Deliver? {
        assert t.mail[i] == s.mail[if i < step.index then i else i + 1];
      } else if i < |s.mail| {
        assert t.mail[i] == s.mail[i];
      } else {
        assert step == Finish(t.mail[i], true);
      }
    }
  }

  lemma StepStaysExplained(s: State, done: seq<Step>, step: Step)
    requires Inv(s) && Enabled(s, step) && Explained(s, done) && MailExplained(s, done)
    ensures Explained(Next(s, step), done + [step]) && MailExplained(Next(s, step), done + [step])
  {
    var t := Next(s, step);
    OwnersStayExplained(s, done, step);
    MailStaysExplained(s, done, step);
    NewEventExplained(s, done, step);
    SharedStays(s, step);
    forall i | 0 <= i < |t.log| ensures EventExplained(t, t.log[i], done + [step]) {
      if i < |s.log| {
        assert t.log[i] == s.log[i];
        EventStaysExplained(s, t, s.log[i], done, step);
      }
    }
  }

  lemma {:induction false} RunExplained(s: State, done: seq<Step>, steps: seq<Step>)
    requires Inv(s) && Explained(s, done) && MailExplained(s, done) && Legal(s, steps)
    ensures Explained(After(s, steps), done + steps)
    decreases |steps|
  {
    if steps == [] {
      assert done + steps == done;
    } else {
      StepStaysExplained(s, done, steps[0]);
      StepKeepsInv(s, steps[0]);
      RunExplained(Next(s, steps[0]), done + [steps[0]], steps[1..]);
      assert done + [steps[0]] + steps[1..] == done + steps;
    }
  }

  /** In every run: a handle is lost only when its port refused it, posted only when its port took it, taken
      only by `into_inner` at home, and deleted by a drop or in the isolate of its port. */
  lemma EveryEventHasItsCause(steps: seq<Step>, i: nat)
    requires Legal(START, steps) && i < |After(START, steps).log|
    ensures var s := After(START, steps);
            var e := s.log[i];
            && e.obj in s.shared
            && (e.kind == Failed ==> Finish(e.obj, false) in steps && e.current != s.shared[e.obj].home)
            && (e.kind == Posted ==> Finish(e.obj, true) in steps && e.current != s.shared[e.obj].home)
            && (e.kind == Taken ==> IntoInner(e.obj, e.current) in steps && e.current == s.shared[e.obj].home)
            && (e.kind == Used ==> CreateDartHandle(e.obj, e.current) in steps && e.current == s.shared[e.obj].home)
            && (e.kind == Deleted ==>
                  || (Drop(e.obj, e.current) in steps && e.current == s.shared[e.obj].home)
                  || (Finish(e.obj, true) in steps && e.current == s.shared[e.obj].port))
  {
    RunKeepsInv(START, steps);
    RunExplained(START, [], steps);
    assert [] + steps == steps;
    var s := After(START, steps);
    assert RightPlace(s, s.log[i]) && EventExplained(s, s.log[i], steps);
  }

  lemma {:induction false} PresentIfCounted(log: seq<Event>, kind: Kind, o: nat) returns (i: nat)
    requires Count(log, kind, o) > 0
    ensures i < |log| && log[i].kind == kind && log[i].obj == o
  {
    var last := log[|log| - 1];
    if last.kind == kind && last.obj == o {
      i := |log| - 1;
    } else {
      i := PresentIfCounted(log[..|log| - 1], kind, o);
    }
  }

  /** As long as ports are open nothing is leaked at all: when every share is gone and every message
      delivered, each handle was deleted or taken out, once. */
  lemma NothingIsLeakedWhilePortsAreOpen(steps: seq<Step>, o: nat)
    requires Legal(START, steps) && forall x :: Finish(x, false) !in steps
    requires var s := After(START, steps);
             o in s.shared && s.shared[o].values == 0 && s.shared[o].raws == 0 && s.owners == map[] && s.mail == []
    ensures Count(After(START, steps).log, Deleted, o) + Count(After(START, steps).log, Taken, o) == 1
  {
    var s := After(START, steps);
    EachHandleIsAtOnePlace(steps, o);
    RunKeepsInv(START, steps);
    assert Placed(s, o);
    if Count(s.log, Failed, o) > 0 {
      var i := PresentIfCounted(s.log, Failed, o);
      EveryEventHasItsCause(steps, i);
    }
  }

  /** What becomes of the last share, by the place where it is given up and the state of the port. */
  lemma LastShareGoes(s: State, o: nat, current: Context, wantsInner: bool, portIsOpen: bool)
    requires Inv(s) && !s.aborted && o in s.shared && s.shared[o].values == 1 && s.shared[o].raws == 0
    ensures var step := if wantsInner then IntoInner(o, current) else Drop(o, current);
            && Enabled(s, step) && Enabled(Next(s, step), Finish(o, portIsOpen))
            && var t := Next(Next(s, step), Finish(o, portIsOpen));
               if current == s.shared[o].home then
                 t.log == s.log + [Event(if wantsInner then Taken else Deleted, o, current)] && t.mail == s.mail
               else if portIsOpen then t.log == s.log + [Event(Posted, o, current)] && t.mail == s.mail + [o]
               else t.log == s.log + [Event(Failed, o, current)] && t.mail == s.mail
  {
    assert Placed(s, o);
    var step := if wantsInner then IntoInner(o, current) else Drop(o, current);
    var u := Next(s, step);
    assert u.log == s.log && u.mail == s.mail && u.owners[o] == Owner(current, wantsInner);
    assert u.shared[o].home == s.shared[o].home;
  }

  // ----- How many shares there are -----

  datatype Counting = Makes | Clones | Drops | ToRaws | OfRaws | UsesIn(current: Context)

  predicate Counts(step: Step, what: Counting, o: nat) {
    match what
    case Makes => step.Make? && step.obj == o
    case Clones => step == Clone(o)
    case Drops => step.Drop? && step.obj == o
    case ToRaws => step == IntoRaw(o)
    case OfRaws => step == FromRaw(o)
    case UsesIn(current) => step == CreateDartHandle(o, current)
  }

  function Times(steps: seq<Step>, what: Counting, o: nat): nat {
    if steps == [] then 0 else (if Counts(steps[0], what, o) then 1 else 0) + Times(steps[1..], what, o)
  }

  function Strong(s: State, o: nat): nat {
    if o in s.shared then s.shared[o].strong else 0
  }

  function Raws(s: State, o: nat): nat {
    if o in s.shared then s.shared[o].raws else 0
  }

  /** Shares now, by what was done since: made and cloned, less dropped; or none, the only one left having
      been turned into the inner value. */
  ghost predicate Tally(s: State, steps: seq<Step>, t: State, o: nat) {
    var shares := Strong(s, o) + Times(steps, Makes, o) + Times(steps, Clones, o) - Times(steps, Drops, o);
    && Raws(t, o) == Raws(s, o) + Times(steps, ToRaws, o) - Times(steps, OfRaws, o)
    && (Strong(t, o) == shares || (Strong(t, o) == 0 && shares == 1 && exists c :: IntoInner(o, c) in steps))
  }

  /** Once nobody shares a handle, nothing can be done to its shares any more. */
  lemma {:induction false} GoneStays(s: State, steps: seq<Step>, o: nat)
    requires Inv(s) && Legal(s, steps) && o in s.shared && s.shared[o].strong == 0
    ensures Strong(After(s, steps), o) == 0 && Raws(After(s, steps), o) == 0
    ensures forall what: Counting :: !what.UsesIn? ==> Times(steps, what, o) == 0
    decreases |steps|
  {
    assert Placed(s, o);
    if steps != [] {
      StepKeepsInv(s, steps[0]);
      GoneStays(Next(s, steps[0]), steps[1..], o);
    }
  }

  /** What one step does to the shares. */
  lemma StepTally(s: State, step: Step, o: nat)
    requires Inv(s) && Enabled(s, step)
    ensures var t := Next(s, step);
            var unwrapped := step.IntoInner? && step.obj == o && s.shared[o].strong == 1;
            && Strong(t, o) == Strong(s, o)
                               + (if Counts(step, Makes, o) || Counts(step, Clones, o) then 1 else 0)
                               - (if Counts(step, Drops, o) || unwrapped then 1 else 0)
            && Raws(t, o) == Raws(s, o)
                             + (if Counts(step, ToRaws, o) then 1 else 0) - (if Counts(step, OfRaws, o) then 1 else 0)
            && (unwrapped ==> o in t.shared && t.shared[o].strong == 0)
  {
    assert Placed(s, o);
  }

  lemma {:induction false} RunTally(s: State, steps: seq<Step>, o: nat)
    requires Inv(s) && Legal(s, steps)
    ensures Tally(s, steps, After(s, steps), o)
    decreases |steps|
  {
    if steps != [] {
      var step, rest := steps[0], steps[1..];
      var u := Next(s, step);
      StepTally(s, step, o);
      StepKeepsInv(s, step);
      RunTally(u, rest, o);
      assert forall x :: x in rest ==> x in steps;
      if step.IntoInner? && step.obj == o && s.shared[o].strong == 1 {
        GoneStays(u, rest, o);
        assert IntoInner(o, step.current) in steps;
      }
    }
  }

  /** In every run, the shares of a handle are those made and cloned, less those dropped, and the raw pointers
      those turned out, less those turned back; or there is none, after an `into_inner` of the only one left. */
  lemma SharesAreCounted(steps: seq<Step>, o: nat)
    requires Legal(START, steps)
    ensures var s := After(START, steps);
            var shares := Times(steps, Makes, o) + Times(steps, Clones, o) - Times(steps, Drops, o);
            && Raws(s, o) == Times(steps, ToRaws, o) - Times(steps, OfRaws, o)
            && (Strong(s, o) == shares || (Strong(s, o) == 0 && shares == 1 && exists c :: IntoInner(o, c) in steps))
  {
    RunTally(START, steps, o);
  }

  lemma {:induction false} HomeStays(s: State, steps: seq<Step>, o: nat)
    requires Legal(s, steps) && o in s.shared
    ensures o in After(s, steps).shared && After(s, steps).shared[o].home == s.shared[o].home
    decreases |steps|
  {
    if steps != [] {
      SharedStays(s, steps[0]);
      assert SamePlaces(s.shared[o], Next(s, steps[0]).shared[o]);
      HomeStays(Next(s, steps[0]), steps[1..], o);
    }
  }

  lemma StepUses(s: State, step: Step, o: nat)
    requires Enabled(s, step)
    ensures Count(Next(s, step).log, Used, o) ==
            Count(s.log, Used, o) + if o in s.shared && Counts(step, UsesIn(s.shared[o].home), o) then 1 else 0
    ensures o !in s.shared ==> forall c :: !Counts(step, UsesIn(c), o)
  {
    var t := Next(s, step);
    if |t.log| > |s.log| {
      var e := t.log[|s.log|];
      assert t.log == s.log + [e];
      CountAppend(s.log, e, Used, o);
    } else {
      assert t.log == s.log;
    }
  }

  lemma {:induction false} RunUses(s: State, steps: seq<Step>, t: State, o: nat, home: Context)
    requires Legal(s, steps) && t == After(s, steps) && o in t.shared && t.shared[o].home == home
    ensures Count(t.log, Used, o) == Count(s.log, Used, o) + Times(steps, UsesIn(home), o)
    decreases |steps|
  {
    if steps != [] {
      var step, rest := steps[0], steps[1..];
      if o in s.shared {
        HomeStays(s, steps, o);
      }
      StepUses(s, step, o);
      RunUses(Next(s, step), rest, t, o, home);
      assert Times(steps, UsesIn(home), o) == Times(rest, UsesIn(home), o) + if Counts(step, UsesIn(home), o) then 1 else 0;
    }
  }

  /** In every run a handle is used as often as its Dart object was asked for at home, and no more. */
  lemma UsesAreCounted(steps: seq<Step>, o: nat)
    requires Legal(START, steps) && o in After(START, steps).shared
    ensures Count(After(START, steps).log, Used, o) == Times(steps, UsesIn(After(START, steps).shared[o].home), o)
  {
    var s := After(START, steps);
    RunUses(START, steps, s, o, s.shared[o].home);
  }

  // ----- Deletion at home -----

  ghost predicate AlwaysDeletedAtHome(home: Context, port: Context) {
    forall steps | Legal(START, steps) ::
      forall i :: 0 <= i < |After(START, steps).log| ==>
                    DeletedAtHome(After(START, steps), After(START, steps).log[i], home, port)
  }

  predicate DeletedAtHome(s: State, e: Event, home: Context, port: Context) {
    e.kind == Deleted && e.obj in s.shared && s.shared[e.obj].home == home && s.shared[e.obj].port == port
    ==> e.current == home
  }

  /** A handle made in one isolate is never deleted in another, exactly when its port belongs to the
      isolate that made it. */
  lemma DeletedAtHomeExactlyWhenPortIsHome(home: Context, port: Context)
    ensures AlwaysDeletedAtHome(home, port) <==> port == home
  {
    if port == home {
      forall steps | Legal(START, steps)
        ensures forall i :: 0 <= i < |After(START, steps).log| ==>
                              DeletedAtHome(After(START, steps), After(START, steps).log[i], home, port)
      {
        RunKeepsInv(START, steps);
        var s := After(START, steps);
        assert forall i :: 0 <= i < |s.log| ==> RightPlace(s, s.log[i]);
      }
    } else {
      var steps := ForeignDeletion(home, port);
      var s := After(START, steps);
      assert !DeletedAtHome(s, s.log[|s.log| - 1], home, port);
    }
  }

  /** Made at home, dropped elsewhere, sent to a foreign port, delivered there. */
  lemma ForeignDeletion(home: Context, port: Context) returns (steps: seq<Step>)
    requires port != home
    ensures Legal(START, steps)
    ensures var s := After(START, steps);
            && s.aborted && 0 in s.shared && s.shared[0].home == home && s.shared[0].port == port
            && |s.log| > 0 && s.log[|s.log| - 1] == Event(Deleted, 0, port)
  {
    var a, b, c, d := Make(0, home, port), Drop(0, port), Finish(0, true), Deliver(0);
    steps := [a, b, c, d];
    var s1 := Next(START, a);
    var s2 := Next(s1, b);
    var s3 := Next(s2, c);
    assert s3.mail == [0];
    OneStep(s3, d, []);
    assert [d] + [] == [d] && [c] + [d] == [c, d] && [b] + [c, d] == [b, c, d] && [a] + [b, c, d] == steps;
    OneStep(s2, c, [d]);
    OneStep(s1, b, [c, d]);
    OneStep(START, a, [b, c, d]);
  }

  lemma OneStep(s: State, step: Step, rest: seq<Step>)
    requires Enabled(s, step) && Legal(Next(s, step), rest)
    ensures Legal(s, [step] + rest) && After(s, [step] + rest) == After(Next(s, step), rest)
  {
    assert ([step] + rest)[1..] == rest;
  }
}
