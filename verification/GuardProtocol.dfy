/** Concurrent calls that take read/write guards on opaque objects, run their bodies and
    drop the guards: a transition system over every interleaving of single steps. */
module GuardProtocol {
  import opened LockableOrder

  /** What an object holds. */
  type Contents(==, !new)

  /** One access of a body to an object it borrowed. */
  datatype Access = Read(obj: nat) | Write(obj: nat, value: Contents)

  /** A call: its guards in acquisition order, and a body of `len` accesses. Which access comes
      next depends on everything the body has seen so far. */
  datatype Call = Call(guards: seq<Borrow>, act: seq<Contents> -> Access, len: nat)

  /** When a waiting call may be given its next guard: as soon as the guard is compatible with
      the ones held, or only if, besides, nobody waits longer for the same object. */
  datatype GrantRule = IfCompatible | FifoQueue

  /** How far one call is: guards taken, accesses done with what they saw, guards dropped again. */
  datatype CallState = CallState(taken: nat, log: seq<Contents>, dropped: set<nat>)

  /** `waiting` lists the waiting calls, longest first; `acquired` the calls in the order in which they
      got their last guard, those without guards when they start; `entered` the calls whose bodies
      started; `mem` is what the objects hold. */
  datatype State = State(
    calls: seq<CallState>, waiting: seq<nat>, acquired: seq<nat>, entered: seq<nat>, mem: map<nat, Contents>)

  datatype Step =
    | Request(call: nat)           // ask for the next guard
    | Grant(position: nat)         // give the call at this place of the queue its guard
    | Enter(call: nat)             // all guards taken: the body starts
    | Act(call: nat)               // one access of the body
    | Drop(call: nat, guard: nat)  // the body is over: one guard is dropped

  predicate Borrows(guards: seq<Borrow>, obj: nat) {
    exists i :: 0 <= i < |guards| && guards[i].obj == obj
  }

  predicate BorrowsMutably(guards: seq<Borrow>, obj: nat) {
    exists i :: 0 <= i < |guards| && guards[i] == Borrow(obj, true)
  }

  /** What the borrow rules of the language enforce: reads go to borrowed objects,
      writes to mutably borrowed ones. */
  predicate Allowed(guards: seq<Borrow>, access: Access) {
    match access
    case Read(o) => Borrows(guards, o)
    case Write(o, _) => BorrowsMutably(guards, o)
  }

  /** The body keeps to what the call borrows, whatever it has seen. */
  ghost predicate Disciplined(call: Call, objects: set<nat>) {
    && (forall i :: 0 <= i < |call.guards| ==> call.guards[i].obj in objects)
    && (forall log {:trigger call.act(log)} :: |log| < call.len ==> Allowed(call.guards, call.act(log)))
  }

  ghost predicate GoodCall(call: Call, objects: set<nat>) {
    Accepted(call.guards) && Disciplined(call, objects)
  }

  ghost predicate GoodProgram(prog: seq<Call>, objects: set<nat>) {
    forall c :: 0 <= c < |prog| ==> GoodCall(prog[c], objects)
  }

  function Start(prog: seq<Call>, mem: map<nat, Contents>): State {
    State(seq(|prog|, _ => CallState(0, [], {})), [], [], [], mem)
  }

  // ----- Single steps -----

  ghost predicate Shape(prog: seq<Call>, s: State) {
    && |s.calls| == |prog|
    && (forall c :: 0 <= c < |prog| ==> s.calls[c].taken <= |prog[c].guards|)
    && (forall i :: 0 <= i < |s.waiting| ==> s.waiting[i] < |prog| && Wants(prog, s, s.waiting[i]))
  }

  predicate Wants(prog: seq<Call>, s: State, c: nat)
    requires |s.calls| == |prog|
  {
    c < |prog| && s.calls[c].taken < |prog[c].guards|
  }

  /** The guard call c is about to take. */
  function Wanted(prog: seq<Call>, s: State, c: nat): Borrow
    requires |s.calls| == |prog| && Wants(prog, s, c)
  {
    prog[c].guards[s.calls[c].taken]
  }

  /** Call c holds its p-th guard. */
  predicate Holds(prog: seq<Call>, s: State, c: nat, p: nat)
    requires |s.calls| == |prog|
  {
    c < |prog| && p < |prog[c].guards| && p < s.calls[c].taken && p !in s.calls[c].dropped
  }

  ghost predicate Compatible(prog: seq<Call>, s: State, b: Borrow)
    requires |s.calls| == |prog|
  {
    forall d: nat, p: nat :: Holds(prog, s, d, p) ==> !Conflict(b, prog[d].guards[p])
  }

  /** The object the call at place i of the queue waits for. */
  ghost function WantedAt(prog: seq<Call>, s: State, i: nat): nat
    requires Shape(prog, s) && i < |s.waiting|
  {
    Wanted(prog, s, s.waiting[i]).obj
  }

  /** Nobody further up the queue wants the same object. */
  ghost predicate FirstInLine(prog: seq<Call>, s: State, i: nat)
    requires Shape(prog, s) && i < |s.waiting|
  {
    forall j :: 0 <= j < i ==> WantedAt(prog, s, j) != WantedAt(prog, s, i)
  }

  ghost predicate Enabled(prog: seq<Call>, rule: GrantRule, s: State, step: Step)
    requires Shape(prog, s)
  {
    match step
    case Request(c) => Wants(prog, s, c) && c !in s.waiting
    case Grant(i) =>
      && i < |s.waiting|
      && Compatible(prog, s, Wanted(prog, s, s.waiting[i]))
      && (rule == FifoQueue ==> FirstInLine(prog, s, i))
    case Enter(c) => c < |prog| && s.calls[c].taken == |prog[c].guards| && c !in s.entered
    case Act(c) =>
      && c < |prog| && c in s.entered && |s.calls[c].log| < prog[c].len
      && prog[c].act(s.calls[c].log).obj in s.mem
    case Drop(c, p) =>
      c < |prog| && c in s.entered && |s.calls[c].log| == prog[c].len && Holds(prog, s, c, p)
  }

  /** The effect of one access on the objects and on what the body has seen. */
  function Perform(access: Access, mem: map<nat, Contents>, log: seq<Contents>): (map<nat, Contents>, seq<Contents>)
    requires access.obj in mem
  {
    match access
    case Read(o) => (mem, log + [mem[o]])
    case Write(o, v) => (mem[o := v], log + [v])
  }

  ghost function Next(prog: seq<Call>, rule: GrantRule, s: State, step: Step): State
    requires Shape(prog, s) && Enabled(prog, rule, s, step)
  {
    match step
    case Request(c) => s.(waiting := s.waiting + [c])
    case Grant(i) =>
      var c := s.waiting[i];
      var taken := s.calls[c].taken + 1;
      s.(calls := s.calls[c := s.calls[c].(taken := taken)],
         waiting := s.waiting[..i] + s.waiting[i + 1..],
         acquired := if taken == |prog[c].guards| then s.acquired + [c] else s.acquired)
    case Enter(c) =>
      s.(entered := s.entered + [c], acquired := if prog[c].guards == [] then s.acquired + [c] else s.acquired)
    case Act(c) =>
      var (mem, log) := Perform(prog[c].act(s.calls[c].log), s.mem, s.calls[c].log);
      s.(calls := s.calls[c := s.calls[c].(log := log)], mem := mem)
    case Drop(c, p) =>
      s.(calls := s.calls[c := s.calls[c].(dropped := s.calls[c].dropped + {p})])
  }

  predicate Finished(prog: seq<Call>, s: State, c: nat)
    requires |s.calls| == |prog|
  {
    && c < |prog| && c in s.entered && |s.calls[c].log| == prog[c].len
    && forall p :: 0 <= p < |prog[c].guards| ==> p in s.calls[c].dropped
  }

  ghost predicate AllFinished(prog: seq<Call>, s: State)
    requires |s.calls| == |prog|
  {
    forall c :: 0 <= c < |prog| ==> Finished(prog, s, c)
  }

  /** Some call is unfinished and no step at all is possible. */
  ghost predicate Deadlocked(prog: seq<Call>, rule: GrantRule, s: State)
    requires Shape(prog, s)
  {
    !AllFinished(prog, s) && forall step :: !Enabled(prog, rule, s, step)
  }

  // ----- The invariant -----

  /** Two guards held at the same time never conflict. */
  ghost predicate Exclusive(prog: seq<Call>, s: State)
    requires |s.calls| == |prog|
  {
    forall c: nat, p: nat, d: nat, q: nat :: Holds(prog, s, c, p) && Holds(prog, s, d, q) && (c, p) != (d, q) ==>
      !Conflict(prog[c].guards[p], prog[d].guards[q])
  }

  ghost predicate Distinct(s: seq<nat>) {
    forall i, j :: 0 <= i < j < |s| ==> s[i] != s[j]
  }

  /** A call works only after taking all its guards and drops guards only after its work. */
  ghost predicate PhasesInOrder(call: Call, cs: CallState, entered: bool) {
    && (entered ==> cs.taken == |call.guards|)
    && (!entered ==> cs.log == [])
    && |cs.log| <= call.len
    && (cs.dropped != {} ==> entered && |cs.log| == call.len)
    && (forall p :: p in cs.dropped ==> p < |call.guards|)
  }

  /** Call c has taken its last guard; without guards, it has started. */
  predicate HasAll(prog: seq<Call>, s: State, c: nat)
    requires |s.calls| == |prog| && c < |prog|
  {
    if prog[c].guards == [] then c in s.entered else s.calls[c].taken == |prog[c].guards|
  }

  ghost predicate AcquiredListsHolders(prog: seq<Call>, s: State)
    requires |s.calls| == |prog|
  {
    && (forall c :: c in s.acquired ==> c < |prog|)
    && (forall c :: 0 <= c < |prog| ==> (c in s.acquired <==> HasAll(prog, s, c)))
    && Distinct(s.acquired)
  }

  ghost predicate Bookkeeping(prog: seq<Call>, s: State) {
    && Shape(prog, s)
    && (forall c :: 0 <= c < |prog| ==> PhasesInOrder(prog[c], s.calls[c], c in s.entered))
    && (forall c :: c in s.entered ==> c < |prog|)
    && AcquiredListsHolders(prog, s)
    && Distinct(s.waiting) && Distinct(s.entered)
  }

  ghost predicate Inv(prog: seq<Call>, s: State) {
    Bookkeeping(prog, s) && Exclusive(prog, s)
  }

  lemma StartInv(prog: seq<Call>, mem: map<nat, Contents>)
    ensures Inv(prog, Start(prog, mem))
  {}

  /** At most call c completes its acquisition, and is listed if it does. */
  lemma ListedOnce(prog: seq<Call>, s: State, s': State, c: nat)
    requires |s.calls| == |s'.calls| == |prog| && c < |prog| && AcquiredListsHolders(prog, s)
    requires forall d :: 0 <= d < |prog| && d != c ==> HasAll(prog, s', d) == HasAll(prog, s, d)
    requires HasAll(prog, s, c) ==> HasAll(prog, s', c)
    requires s'.acquired == if HasAll(prog, s', c) && !HasAll(prog, s, c) then s.acquired + [c] else s.acquired
    ensures AcquiredListsHolders(prog, s')
  {}

  lemma GrantKeepsExclusion(prog: seq<Call>, rule: GrantRule, s: State, i: nat)
    requires Inv(prog, s) && Enabled(prog, rule, s, Grant(i))
    ensures Exclusive(prog, Next(prog, rule, s, Grant(i)))
  {
    var s' := Next(prog, rule, s, Grant(i));
    var c := s.waiting[i];
    var k := s.calls[c].taken;
    assert forall d: nat, p: nat :: Holds(prog, s', d, p) ==> Holds(prog, s, d, p) || (d, p) == (c, k);
    ExclusiveAfterGrant(prog, s, s', c, k);
  }

  lemma GrantKeepsBooks(prog: seq<Call>, rule: GrantRule, s: State, i: nat)
    requires Bookkeeping(prog, s) && Enabled(prog, rule, s, Grant(i))
    ensures Bookkeeping(prog, Next(prog, rule, s, Grant(i)))
  {
    var s' := Next(prog, rule, s, Grant(i));
    QueueAfterGrant(prog, s, s', i);
    ListedOnce(prog, s, s', s.waiting[i]);
  }

  lemma GrantKeepsInv(prog: seq<Call>, rule: GrantRule, s: State, i: nat)
    requires Inv(prog, s) && Enabled(prog, rule, s, Grant(i))
    ensures Inv(prog, Next(prog, rule, s, Grant(i)))
  {
    GrantKeepsExclusion(prog, rule, s, i);
    GrantKeepsBooks(prog, rule, s, i);
  }

  lemma QueueAfterGrant(prog: seq<Call>, s: State, s': State, i: nat)
    requires Shape(prog, s) && Distinct(s.waiting) && i < |s.waiting|
    requires s'.waiting == s.waiting[..i] + s.waiting[i + 1..]
    requires |s'.calls| == |s.calls|
    requires forall c :: 0 <= c < |s.calls| && c != s.waiting[i] ==> s'.calls[c] == s.calls[c]
    requires s'.calls[s.waiting[i]].taken <= |prog[s.waiting[i]].guards|
    ensures Shape(prog, s') && Distinct(s'.waiting)
  {
    forall j | 0 <= j < |s'.waiting|
      ensures s'.waiting[j] == s.waiting[if j < i then j else j + 1]
    {}
  }

  lemma ExclusiveAfterGrant(prog: seq<Call>, s: State, s': State, c: nat, k: nat)
    requires |s.calls| == |s'.calls| == |prog| && c < |prog| && k < |prog[c].guards|
    requires Exclusive(prog, s) && Compatible(prog, s, prog[c].guards[k])
    requires forall d: nat, p: nat :: Holds(prog, s', d, p) ==> Holds(prog, s, d, p) || (d, p) == (c, k)
    ensures Exclusive(prog, s')
  {}

  lemma ExclusiveAfterLess(prog: seq<Call>, s: State, s': State)
    requires |s.calls| == |s'.calls| == |prog| && Exclusive(prog, s)
    requires forall d: nat, p: nat :: Holds(prog, s', d, p) ==> Holds(prog, s, d, p)
    ensures Exclusive(prog, s')
  {}

  lemma ActKeepsInv(prog: seq<Call>, rule: GrantRule, s: State, step: Step)
    requires Inv(prog, s) && step.Act? && Enabled(prog, rule, s, step)
    ensures Inv(prog, Next(prog, rule, s, step))
    ensures Next(prog, rule, s, step).mem.Keys == s.mem.Keys
  {
    ExclusiveAfterLess(prog, s, Next(prog, rule, s, step));
  }

  lemma EnterKeepsInv(prog: seq<Call>, rule: GrantRule, s: State, step: Step)
    requires Inv(prog, s) && step.Enter? && Enabled(prog, rule, s, step)
    ensures Inv(prog, Next(prog, rule, s, step))
  {
    var s' := Next(prog, rule, s, step);
    ListedOnce(prog, s, s', step.call);
    ExclusiveAfterLess(prog, s, s');
  }

  lemma DropKeepsInv(prog: seq<Call>, rule: GrantRule, s: State, step: Step)
    requires Inv(prog, s) && step.Drop? && Enabled(prog, rule, s, step)
    ensures Inv(prog, Next(prog, rule, s, step))
  {
    ExclusiveAfterLess(prog, s, Next(prog, rule, s, step));
  }

  lemma StepKeepsInv(prog: seq<Call>, rule: GrantRule, s: State, step: Step)
    requires Inv(prog, s) && Enabled(prog, rule, s, step)
    ensures Inv(prog, Next(prog, rule, s, step))
    ensures Next(prog, rule, s, step).mem.Keys == s.mem.Keys
  {
    var s' := Next(prog, rule, s, step);
    match step {
      case Grant(i) => GrantKeepsInv(prog, rule, s, i);
      case Request(_) => ExclusiveAfterLess(prog, s, s');
      case Enter(_) => EnterKeepsInv(prog, rule, s, step);
      case Act(_) => ActKeepsInv(prog, rule, s, step);
      case Drop(_, _) => DropKeepsInv(prog, rule, s, step);
    }
  }

  // ----- Runs -----

  /** s' is what the steps lead to from s, each step being possible when it is taken. */
  ghost predicate Run(prog: seq<Call>, rule: GrantRule, s: State, steps: seq<Step>, s': State) {
    if steps == [] then
      s' == s
    else
      exists mid :: Run(prog, rule, s, AllButLast(steps), mid) && TakesStep(prog, rule, mid, Last(steps), s')
  }

  function AllButLast(steps: seq<Step>): seq<Step>
    requires steps != []
  {
    steps[..|steps| - 1]
  }

  function Last(steps: seq<Step>): Step
    requires steps != []
  {
    steps[|steps| - 1]
  }

  ghost predicate TakesStep(prog: seq<Call>, rule: GrantRule, s: State, step: Step, s': State) {
    Shape(prog, s) && Enabled(prog, rule, s, step) && s' == Next(prog, rule, s, step)
  }

  /** Exclusion and the rest of the invariant hold in every state every run goes through. */
  lemma {:induction false} RunKeepsInv(prog: seq<Call>, rule: GrantRule, mem: map<nat, Contents>, steps: seq<Step>, s: State)
    requires Run(prog, rule, Start(prog, mem), steps, s)
    ensures Inv(prog, s) && s.mem.Keys == mem.Keys
    decreases |steps|
  {
    if steps == [] {
      StartInv(prog, mem);
    } else {
      var mid :| Run(prog, rule, Start(prog, mem), AllButLast(steps), mid) && TakesStep(prog, rule, mid, Last(steps), s);
      RunKeepsInv(prog, rule, mem, AllButLast(steps), mid);
      StepKeepsInv(prog, rule, mid, Last(steps));
    }
  }

  lemma RunOneMore(prog: seq<Call>, rule: GrantRule, s: State, steps: seq<Step>, mid: State, step: Step)
    requires Run(prog, rule, s, steps, mid) && Shape(prog, mid) && Enabled(prog, rule, mid, step)
    ensures Run(prog, rule, s, steps + [step], Next(prog, rule, mid, step))
  {
    var more := steps + [step];
    assert AllButLast(more) == steps && Last(more) == step;
    assert TakesStep(prog, rule, mid, Last(more), Next(prog, rule, mid, step));
  }

  // ----- Queueing -----

  /** In the queue, c stands before any place of d. */
  ghost predicate Ahead(s: State, c: nat, d: nat) {
    exists i :: 0 <= i < |s.waiting| && s.waiting[i] == c && forall j :: 0 <= j <= i ==> s.waiting[j] != d
  }

  lemma AheadStays(prog: seq<Call>, s: State, step: Step, c: nat, d: nat)
    requires Shape(prog, s) && Enabled(prog, FifoQueue, s, step) && Ahead(s, c, d) && c < |prog|
    requires Next(prog, FifoQueue, s, step).calls[c].taken == s.calls[c].taken
    ensures Ahead(Next(prog, FifoQueue, s, step), c, d)
  {
    var s' := Next(prog, FifoQueue, s, step);
    var i :| 0 <= i < |s.waiting| && s.waiting[i] == c && forall j :: 0 <= j <= i ==> s.waiting[j] != d;
    if step.Grant? {
      var g := step.position;
      assert g != i;
      var k := if i < g then i else i - 1;
      assert forall j :: 0 <= j < |s'.waiting| ==> s'.waiting[j] == s.waiting[if j < g then j else j + 1];
      assert s'.waiting[k] == c && forall j :: 0 <= j <= k ==> s'.waiting[j] != d;
    } else {
      assert forall j :: 0 <= j <= i ==> s'.waiting[j] == s.waiting[j];
    }
  }

  lemma TakenGrows(prog: seq<Call>, rule: GrantRule, s: State, step: Step, c: nat)
    requires Shape(prog, s) && Enabled(prog, rule, s, step) && c < |prog|
    ensures |Next(prog, rule, s, step).calls| == |prog| && Next(prog, rule, s, step).calls[c].taken >= s.calls[c].taken
  {}

  lemma {:induction false} StaysAhead(prog: seq<Call>, s: State, steps: seq<Step>, t: State, c: nat, d: nat)
    requires |s.calls| == |prog| && c < |prog| && Ahead(s, c, d) && Run(prog, FifoQueue, s, steps, t)
    ensures |t.calls| == |prog| && t.calls[c].taken >= s.calls[c].taken
    ensures t.calls[c].taken == s.calls[c].taken ==> Ahead(t, c, d)
    decreases |steps|
  {
    if steps != [] {
      var mid :| Run(prog, FifoQueue, s, AllButLast(steps), mid) && TakesStep(prog, FifoQueue, mid, Last(steps), t);
      StaysAhead(prog, s, AllButLast(steps), mid, c, d);
      TakenGrows(prog, FifoQueue, mid, Last(steps), c);
      if t.calls[c].taken == s.calls[c].taken {
        AheadStays(prog, mid, Last(steps), c, d);
      }
    }
  }

  /** The queueing rule means what it says: whoever asks for an object while c waits for it is not served
      before c is. */
  lemma NobodyOvertakes(prog: seq<Call>, s: State, steps: seq<Step>, t: State, c: nat, d: nat, g: nat)
    requires Shape(prog, s) && c in s.waiting && d !in s.waiting
    requires Run(prog, FifoQueue, s, steps, t) && Shape(prog, t) && t.calls[c].taken == s.calls[c].taken
    requires g < |t.waiting| && t.waiting[g] == d && Wants(prog, t, c) && WantedAt(prog, t, g) == Wanted(prog, t, c).obj
    ensures !Enabled(prog, FifoQueue, t, Grant(g))
  {
    var i :| 0 <= i < |s.waiting| && s.waiting[i] == c;
    assert Ahead(s, c, d);
    StaysAhead(prog, s, steps, t, c, d);
    var k :| 0 <= k < |t.waiting| && t.waiting[k] == c && forall j :: 0 <= j <= k ==> t.waiting[j] != d;
    assert k < g && WantedAt(prog, t, k) == WantedAt(prog, t, g);
  }
}
