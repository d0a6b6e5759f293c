/** Every interleaved run leaves the objects, and shows each body, exactly what running the bodies
    one after the other would, in the order in which the calls got their last guard. */
module Serializability {
  import opened LockableOrder
  import opened GuardProtocol
  import opened DeadlockFreedom

  // ----- The reference: bodies alone, one after the other -----

  /** The effect of one access; an object that does not exist is left alone. */
  function Effect(access: Access, mem: map<nat, Contents>, log: seq<Contents>): (map<nat, Contents>, seq<Contents>) {
    if access.obj in mem then Perform(access, mem, log) else (mem, log)
  }

  /** The first k accesses of a body running with nobody else around: the objects, and what it saw. */
  function Alone(call: Call, mem: map<nat, Contents>, k: nat): (map<nat, Contents>, seq<Contents>) {
    if k == 0 then (mem, [])
    else
      var (m, log) := Alone(call, mem, k - 1);
      Effect(call.act(log), m, log)
  }

  /** The first `steps` accesses of the body of `call`. */
  datatype Portion = Portion(call: Call, steps: nat)

  /** The objects after the first n portions have run in turn. */
  function InTurn(ps: seq<Portion>, mem: map<nat, Contents>, n: nat): map<nat, Contents>
    requires n <= |ps|
  {
    if n == 0 then mem else Alone(ps[n - 1].call, InTurn(ps, mem, n - 1), ps[n - 1].steps).0
  }

  /** What the body at place i sees when the ones before it have run. */
  function Sees(ps: seq<Portion>, mem: map<nat, Contents>, i: nat): seq<Contents>
    requires i < |ps|
  {
    Alone(ps[i].call, InTurn(ps, mem, i), ps[i].steps).1
  }

  ghost predicate GoodPortions(ps: seq<Portion>, objects: set<nat>) {
    forall i :: 0 <= i < |ps| ==> Disciplined(ps[i].call, objects) && ps[i].steps <= ps[i].call.len
  }

  lemma {:induction false} AloneShape(call: Call, mem: map<nat, Contents>, k: nat)
    requires Disciplined(call, mem.Keys) && k <= call.len
    ensures Alone(call, mem, k).0.Keys == mem.Keys && |Alone(call, mem, k).1| == k
  {
    if k > 0 {
      AloneShape(call, mem, k - 1);
      assert Allowed(call.guards, call.act(Alone(call, mem, k - 1).1));
    }
  }

  lemma {:induction false} InTurnKeys(ps: seq<Portion>, mem: map<nat, Contents>, n: nat)
    requires GoodPortions(ps, mem.Keys) && n <= |ps|
    ensures InTurn(ps, mem, n).Keys == mem.Keys
  {
    if n > 0 {
      InTurnKeys(ps, mem, n - 1);
      AloneShape(ps[n - 1].call, InTurn(ps, mem, n - 1), ps[n - 1].steps);
    }
  }

  /** Only the portions before place n matter at place n. */
  lemma {:induction false} OnlyEarlierMatter(ps: seq<Portion>, qs: seq<Portion>, mem: map<nat, Contents>, n: nat)
    requires n <= |ps| && n <= |qs| && forall i :: 0 <= i < n ==> ps[i] == qs[i]
    ensures InTurn(ps, mem, n) == InTurn(qs, mem, n)
  {
    if n > 0 {
      OnlyEarlierMatter(ps, qs, mem, n - 1);
    }
  }

  // ----- Accesses of calls without a common conflict commute -----

  ghost predicate NoConflict(a: Call, b: Call) {
    forall p, q :: 0 <= p < |a.guards| && 0 <= q < |b.guards| ==> !Conflict(a.guards[p], b.guards[q])
  }

  function Update(mem: map<nat, Contents>, access: Access): map<nat, Contents> {
    match access
    case Read(_) => mem
    case Write(o, v) => mem[o := v]
  }

  lemma EffectsCommute(access: Access, next: Access, mem: map<nat, Contents>, log: seq<Contents>)
    requires access.obj in mem && next.obj in mem
    requires access.Write? || next.Write? ==> access.obj != next.obj
    ensures Effect(next, Update(mem, access), log) == (Update(Effect(next, mem, log).0, access), Effect(next, mem, log).1)
    ensures Effect(next, mem, log).0[access.obj] == mem[access.obj]
  {
    if access.Write? && next.Write? {
      assert mem[access.obj := access.value][next.obj := next.value] == mem[next.obj := next.value][access.obj := access.value];
    }
  }

  lemma NoConflictKeepsApart(a: Call, b: Call, access: Access, next: Access)
    requires NoConflict(a, b) && Allowed(a.guards, access) && Allowed(b.guards, next)
    ensures access.Write? || next.Write? ==> access.obj != next.obj
  {}

  /** What an access of `a` writes, a call without conflict with `a` neither sees nor overwrites. */
  lemma {:induction false} AloneCommutes(a: Call, access: Access, b: Call, mem: map<nat, Contents>, k: nat)
    requires Disciplined(b, mem.Keys) && k <= b.len && NoConflict(a, b)
    requires Allowed(a.guards, access) && access.obj in mem
    ensures Alone(b, Update(mem, access), k) == (Update(Alone(b, mem, k).0, access), Alone(b, mem, k).1)
    ensures access.obj in Alone(b, mem, k).0 && Alone(b, mem, k).0[access.obj] == mem[access.obj]
  {
    if k > 0 {
      AloneCommutes(a, access, b, mem, k - 1);
      AloneShape(b, mem, k - 1);
      var (m, log) := Alone(b, mem, k - 1);
      NoConflictKeepsApart(a, b, access, b.act(log));
      EffectsCommute(access, b.act(log), m, log);
    }
  }

  /** The next access of the body at place p, seen from a later place n: it is as if it came last. */
  lemma {:induction false} LaterCommute(ps: seq<Portion>, mem: map<nat, Contents>, p: nat, n: nat, access: Access)
    requires GoodPortions(ps, mem.Keys) && p < n <= |ps|
    requires access == ps[p].call.act(Sees(ps, mem, p))
    requires Allowed(ps[p].call.guards, access) && access.obj in mem
    requires forall j :: p < j < n ==> NoConflict(ps[p].call, ps[j].call)
    ensures InTurn(ps[p := Portion(ps[p].call, ps[p].steps + 1)], mem, n) == Update(InTurn(ps, mem, n), access)
    ensures access.obj in InTurn(ps, mem, n) && access.obj in InTurn(ps, mem, p + 1)
    ensures InTurn(ps, mem, n)[access.obj] == InTurn(ps, mem, p + 1)[access.obj]
    decreases n
  {
    var qs := ps[p := Portion(ps[p].call, ps[p].steps + 1)];
    InTurnKeys(ps, mem, p + 1);
    if n == p + 1 {
      OnlyEarlierMatter(ps, qs, mem, p);
    } else {
      LaterCommute(ps, mem, p, n - 1, access);
      InTurnKeys(ps, mem, n - 1);
      AloneCommutes(ps[p].call, access, ps[n - 1].call, InTurn(ps, mem, n - 1), ps[n - 1].steps);
    }
  }

  // ----- The invariant, on portions -----

  /** A call whose body still runs has no conflict with any call that comes after it. */
  ghost predicate RunningKeepOut(ps: seq<Portion>) {
    forall i, j :: 0 <= i < j < |ps| && ps[i].steps < ps[i].call.len ==> NoConflict(ps[i].call, ps[j].call)
  }

  /** The objects and what each body has seen are those of the portions run in turn. */
  ghost predicate LooksSerial(ps: seq<Portion>, logs: seq<seq<Contents>>, mem: map<nat, Contents>, now: map<nat, Contents>) {
    && |logs| == |ps|
    && GoodPortions(ps, mem.Keys)
    && now == InTurn(ps, mem, |ps|)
    && (forall i :: 0 <= i < |ps| ==> logs[i] == Sees(ps, mem, i))
    && RunningKeepOut(ps)
  }

  lemma EnteringLooksSerial(ps: seq<Portion>, logs: seq<seq<Contents>>, mem: map<nat, Contents>, now: map<nat, Contents>, call: Call)
    requires LooksSerial(ps, logs, mem, now) && Disciplined(call, mem.Keys)
    requires forall i :: 0 <= i < |ps| && ps[i].steps < ps[i].call.len ==> NoConflict(ps[i].call, call)
    ensures LooksSerial(ps + [Portion(call, 0)], logs + [[]], mem, now)
  {
    var qs := ps + [Portion(call, 0)];
    OnlyEarlierMatter(ps, qs, mem, |ps|);
    forall i | 0 <= i < |ps|
      ensures logs[i] == Sees(qs, mem, i)
    {
      OnlyEarlierMatter(ps, qs, mem, i);
    }
  }

  /** One more access at place p leaves what all the others see as it is. */
  lemma OthersSeeTheSame(ps: seq<Portion>, mem: map<nat, Contents>, p: nat, i: nat, access: Access)
    requires GoodPortions(ps, mem.Keys) && p < |ps| && i < |ps| && i != p
    requires access == ps[p].call.act(Sees(ps, mem, p))
    requires Allowed(ps[p].call.guards, access) && access.obj in mem
    requires forall j :: p < j < |ps| ==> NoConflict(ps[p].call, ps[j].call)
    ensures Sees(ps[p := Portion(ps[p].call, ps[p].steps + 1)], mem, i) == Sees(ps, mem, i)
  {
    var qs := ps[p := Portion(ps[p].call, ps[p].steps + 1)];
    if i < p {
      OnlyEarlierMatter(ps, qs, mem, i);
    } else {
      LaterCommute(ps, mem, p, i, access);
      InTurnKeys(ps, mem, i);
      AloneCommutes(ps[p].call, access, ps[i].call, InTurn(ps, mem, i), ps[i].steps);
    }
  }

  /** The acting body sees and leaves now what it would see and leave right after the ones before it. */
  lemma ActingSeesTheSame(ps: seq<Portion>, mem: map<nat, Contents>, p: nat)
    requires GoodPortions(ps, mem.Keys) && p < |ps| && ps[p].steps < ps[p].call.len
    requires forall j :: p < j < |ps| ==> NoConflict(ps[p].call, ps[j].call)
    ensures var access := ps[p].call.act(Sees(ps, mem, p));
            && Allowed(ps[p].call.guards, access) && access.obj in mem
            && access.obj in InTurn(ps, mem, |ps|)
            && var (m, log) := Perform(access, InTurn(ps, mem, |ps|), Sees(ps, mem, p));
               var qs := ps[p := Portion(ps[p].call, ps[p].steps + 1)];
               m == InTurn(qs, mem, |qs|) && log == Sees(qs, mem, p)
  {
    var access := ps[p].call.act(Sees(ps, mem, p));
    var qs := ps[p := Portion(ps[p].call, ps[p].steps + 1)];
    InTurnKeys(ps, mem, p);
    AloneShape(ps[p].call, InTurn(ps, mem, p), ps[p].steps);
    LaterCommute(ps, mem, p, |ps|, access);
    OnlyEarlierMatter(ps, qs, mem, p);
  }

  lemma ActingLooksSerial(ps: seq<Portion>, logs: seq<seq<Contents>>, mem: map<nat, Contents>, now: map<nat, Contents>, p: nat)
    requires LooksSerial(ps, logs, mem, now) && p < |ps| && ps[p].steps < ps[p].call.len
    ensures ps[p].call.act(logs[p]).obj in now
    ensures var (m, log) := Perform(ps[p].call.act(logs[p]), now, logs[p]);
            LooksSerial(ps[p := Portion(ps[p].call, ps[p].steps + 1)], logs[p := log], mem, m)
  {
    var access := ps[p].call.act(logs[p]);
    var qs := ps[p := Portion(ps[p].call, ps[p].steps + 1)];
    ActingSeesTheSame(ps, mem, p);
    forall i | 0 <= i < |ps| && i != p
      ensures logs[i] == Sees(qs, mem, i)
    {
      OthersSeeTheSame(ps, mem, p, i, access);
    }
  }

  // ----- The invariant, on states -----

  ghost predicate AcquiredExist(prog: seq<Call>, s: State) {
    |s.calls| == |prog| && Distinct(s.acquired) && forall i :: 0 <= i < |s.acquired| ==> s.acquired[i] < |prog|
  }

  /** How far the calls that have all their guards are, in the order in which they got the last one. */
  ghost function Portions(prog: seq<Call>, s: State): seq<Portion>
    requires AcquiredExist(prog, s)
  {
    seq(|s.acquired|, i requires 0 <= i < |s.acquired| => Portion(prog[s.acquired[i]], |s.calls[s.acquired[i]].log|))
  }

  ghost function Logs(prog: seq<Call>, s: State): seq<seq<Contents>>
    requires AcquiredExist(prog, s)
  {
    seq(|s.acquired|, i requires 0 <= i < |s.acquired| => s.calls[s.acquired[i]].log)
  }

  ghost predicate Serial(prog: seq<Call>, s: State, mem: map<nat, Contents>) {
    AcquiredExist(prog, s) && LooksSerial(Portions(prog, s), Logs(prog, s), mem, s.mem)
  }

  lemma HoldersHaveNoConflict(prog: seq<Call>, s: State, c: nat, d: nat)
    requires Inv(prog, s) && c < |prog| && d < |prog| && c != d
    requires HasAll(prog, s, c) && HasAll(prog, s, d)
    requires s.calls[c].dropped == s.calls[d].dropped == {}
    ensures NoConflict(prog[d], prog[c])
  {
    assert PhasesInOrder(prog[c], s.calls[c], c in s.entered) && PhasesInOrder(prog[d], s.calls[d], d in s.entered);
    forall p, q | 0 <= p < |prog[d].guards| && 0 <= q < |prog[c].guards|
      ensures !Conflict(prog[d].guards[p], prog[c].guards[q])
    {
      assert Holds(prog, s, d, p) && Holds(prog, s, c, q);
    }
  }

  /** A call that completes its acquisition comes last, whenever its body starts. */
  lemma NewcomerStaysSerial(prog: seq<Call>, s: State, s': State, c: nat, mem: map<nat, Contents>)
    requires GoodProgram(prog, mem.Keys) && Inv(prog, s') && Serial(prog, s, mem)
    requires c < |prog| && s'.acquired == s.acquired + [c] && s'.mem == s.mem && s'.calls[c].log == []
    requires s'.calls[c].dropped == {}
    requires forall d :: 0 <= d < |prog| ==> s'.calls[d].log == s.calls[d].log
    ensures Serial(prog, s', mem)
  {
    var ps, logs := Portions(prog, s), Logs(prog, s);
    forall i | 0 <= i < |s'.acquired| ensures s'.acquired[i] < |prog| && HasAll(prog, s', s'.acquired[i]) {
      assert s'.acquired[i] in s'.acquired;
    }
    assert s'.acquired[|s.acquired|] == c;
    forall i | 0 <= i < |ps| && ps[i].steps < ps[i].call.len
      ensures NoConflict(ps[i].call, prog[c])
    {
      var d := s.acquired[i];
      assert s'.acquired[i] == d;
      assert PhasesInOrder(prog[d], s'.calls[d], d in s'.entered);
      HoldersHaveNoConflict(prog, s', c, d);
    }
    EnteringLooksSerial(ps, logs, mem, s.mem, prog[c]);
    assert Portions(prog, s') == ps + [Portion(prog[c], 0)] && Logs(prog, s') == logs + [[]];
  }

  lemma LastGrantStaysSerial(prog: seq<Call>, rule: GrantRule, s: State, step: Step, mem: map<nat, Contents>)
    requires GoodProgram(prog, mem.Keys) && Inv(prog, s) && Serial(prog, s, mem) && Enabled(prog, rule, s, step)
    requires Next(prog, rule, s, step).acquired != s.acquired
    ensures Serial(prog, Next(prog, rule, s, step), mem)
  {
    var c := ActingCall(s, step);
    StepKeepsInv(prog, rule, s, step);
    assert PhasesInOrder(prog[c], s.calls[c], c in s.entered);
    NewcomerStaysSerial(prog, s, Next(prog, rule, s, step), c, mem);
  }

  lemma ActStaysSerial(prog: seq<Call>, rule: GrantRule, s: State, c: nat, mem: map<nat, Contents>)
    requires Bookkeeping(prog, s) && Serial(prog, s, mem) && Enabled(prog, rule, s, Act(c))
    ensures Serial(prog, Next(prog, rule, s, Act(c)), mem)
  {
    var s' := Next(prog, rule, s, Act(c));
    assert PhasesInOrder(prog[c], s.calls[c], true) && HasAll(prog, s, c);
    var p :| 0 <= p < |s.acquired| && s.acquired[p] == c;
    var ps, logs := Portions(prog, s), Logs(prog, s);
    ActingLooksSerial(ps, logs, mem, s.mem, p);
    OnePlaceAdvances(prog, s, s', p);
  }

  lemma OnePlaceAdvances(prog: seq<Call>, s: State, s': State, p: nat)
    requires AcquiredExist(prog, s) && s'.acquired == s.acquired && p < |s.acquired|
    requires |s'.calls| == |s.calls| && |s'.calls[s.acquired[p]].log| == |s.calls[s.acquired[p]].log| + 1
    requires forall c :: 0 <= c < |s.calls| && c != s.acquired[p] ==> s'.calls[c] == s.calls[c]
    ensures Portions(prog, s') == Portions(prog, s)[p := Portion(Portions(prog, s)[p].call, Portions(prog, s)[p].steps + 1)]
    ensures Logs(prog, s') == Logs(prog, s)[p := s'.calls[s.acquired[p]].log]
  {
    assert forall i :: 0 <= i < |s.acquired| && i != p ==> s.acquired[i] != s.acquired[p];
  }

  lemma OtherStepsStaySerial(prog: seq<Call>, rule: GrantRule, s: State, step: Step, mem: map<nat, Contents>)
    requires Shape(prog, s) && Serial(prog, s, mem) && Enabled(prog, rule, s, step)
    requires !step.Act? && Next(prog, rule, s, step).acquired == s.acquired
    ensures Serial(prog, Next(prog, rule, s, step), mem)
  {
    var s' := Next(prog, rule, s, step);
    assert Portions(prog, s') == Portions(prog, s) && Logs(prog, s') == Logs(prog, s);
  }

  lemma {:induction false} RunIsSerial(prog: seq<Call>, rule: GrantRule, mem: map<nat, Contents>, steps: seq<Step>, s: State)
    requires GoodProgram(prog, mem.Keys) && Run(prog, rule, Start(prog, mem), steps, s)
    ensures Serial(prog, s, mem)
    decreases |steps|
  {
    if steps != [] {
      var step := Last(steps);
      var mid :| Run(prog, rule, Start(prog, mem), AllButLast(steps), mid) && TakesStep(prog, rule, mid, step, s);
      RunIsSerial(prog, rule, mem, AllButLast(steps), mid);
      RunKeepsInv(prog, rule, mem, AllButLast(steps), mid);
      if step.Act? {
        ActStaysSerial(prog, rule, mid, step.call, mem);
      } else if s.acquired != mid.acquired {
        LastGrantStaysSerial(prog, rule, mid, step, mem);
      } else {
        OtherStepsStaySerial(prog, rule, mid, step, mem);
      }
    }
  }

  function WholeBodies(prog: seq<Call>, order: seq<nat>): seq<Portion>
    requires forall i :: 0 <= i < |order| ==> order[i] < |prog|
  {
    seq(|order|, i requires 0 <= i < |order| => Portion(prog[order[i]], prog[order[i]].len))
  }

  /** A finished run equals a serial one: `order` names every call once, and running the bodies
      whole in that order gives the same objects and shows every body the same. */
  ghost predicate SameAsSerial(prog: seq<Call>, s: State, mem: map<nat, Contents>, order: seq<nat>) {
    && |s.calls| == |prog|
    && IsPermutation(order, |prog|)
    && var ps := WholeBodies(prog, order);
    && s.mem == InTurn(ps, mem, |prog|)
    && forall i :: 0 <= i < |prog| ==> s.calls[order[i]].log == Sees(ps, mem, i)
  }

  lemma {:induction false} AllOfThem(order: seq<nat>, n: nat)
    requires Distinct(order) && forall i :: 0 <= i < |order| ==> order[i] < n
    requires forall c :: 0 <= c < n ==> c in order
    ensures |order| == n
    decreases n
  {
    if n > 0 {
      assert n - 1 in order;
      var k :| 0 <= k < |order| && order[k] == n - 1;
      var rest := order[..k] + order[k + 1..];
      forall c | 0 <= c < n - 1
        ensures c in rest
      {
        assert c in order;
        var j :| 0 <= j < |order| && order[j] == c;
        assert rest[if j < k then j else j - 1] == c;
      }
      forall i | 0 <= i < |rest|
        ensures rest[i] == order[if i < k then i else i + 1]
      {}
      AllOfThem(rest, n - 1);
    }
  }

  /** Serializability, for every run that finishes. */
  lemma FinishedRunsAreSerial(prog: seq<Call>, rule: GrantRule, mem: map<nat, Contents>, steps: seq<Step>, s: State)
    requires GoodProgram(prog, mem.Keys) && Run(prog, rule, Start(prog, mem), steps, s)
    requires |s.calls| == |prog| && AllFinished(prog, s)
    ensures SameAsSerial(prog, s, mem, s.acquired)
  {
    RunIsSerial(prog, rule, mem, steps, s);
    RunKeepsInv(prog, rule, mem, steps, s);
    forall c | 0 <= c < |prog|
      ensures c in s.acquired && |s.calls[c].log| == prog[c].len
    {
      assert Finished(prog, s, c) && PhasesInOrder(prog[c], s.calls[c], true) && HasAll(prog, s, c);
    }
    AllOfThem(s.acquired, |prog|);
    assert Portions(prog, s) == WholeBodies(prog, s.acquired);
    assert forall i :: 0 <= i < |prog| ==> Logs(prog, s)[i] == s.calls[s.acquired[i]].log;
  }

  /** All of it together: where no deadlock is possible, a run that cannot go on has finished every
      call, after the same number of steps whatever the interleaving, and is serial. */
  lemma MaximalRunsFinishSerially(prog: seq<Call>, rule: GrantRule, mem: map<nat, Contents>, steps: seq<Step>, s: State)
    requires GoodProgram(prog, mem.Keys) && Run(prog, rule, Start(prog, mem), steps, s)
    requires rule == FifoQueue ==> !DeadlockProne(prog)
    requires Shape(prog, s) && forall step :: !Enabled(prog, rule, s, step)
    ensures AllFinished(prog, s) && |steps| == StepsToFinish(prog)
    ensures SameAsSerial(prog, s, mem, s.acquired)
  {
    RunKeepsInv(prog, rule, mem, steps, s);
    if !AllFinished(prog, s) {
      DeadlockedIsProne(prog, rule, s);
    }
    RunLength(prog, rule, mem, steps, s);
    FinishedRunsAreSerial(prog, rule, mem, steps, s);
  }
}
