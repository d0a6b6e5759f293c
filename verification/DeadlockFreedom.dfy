/** When concurrent calls can get stuck, under either grant rule, and why every run is finite. */
module DeadlockFreedom {
  import opened LockableOrder
  import opened GuardProtocol

  ghost predicate DeadlockFree(prog: seq<Call>, rule: GrantRule, mem: map<nat, Contents>) {
    forall steps, s :: Run(prog, rule, Start(prog, mem), steps, s) ==> !(Shape(prog, s) && Deadlocked(prog, rule, s))
  }

  // ----- A stuck state has a call that waits behind a writer of an object it already reads -----

  /** In a deadlock an unfinished call is in the queue: every other phase has a step left. */
  lemma UnfinishedWaits(prog: seq<Call>, rule: GrantRule, s: State, c: nat)
    requires Bookkeeping(prog, s) && GoodProgram(prog, s.mem.Keys) && Deadlocked(prog, rule, s)
    requires c < |prog| && !Finished(prog, s, c)
    ensures c in s.waiting
  {
    var cs := s.calls[c];
    if cs.taken < |prog[c].guards| {
      assert !Enabled(prog, rule, s, Request(c));
    } else if c !in s.entered {
      assert Enabled(prog, rule, s, Enter(c));
    } else if |cs.log| < prog[c].len {
      assert GoodCall(prog[c], s.mem.Keys);
      assert Enabled(prog, rule, s, Act(c));
    } else {
      var p :| 0 <= p < |prog[c].guards| && p !in cs.dropped;
      assert Enabled(prog, rule, s, Drop(c, p));
    }
  }

  /** The place in the queue with the greatest wanted object; among equals, the longest wait. */
  lemma {:induction false} GreatestWish(prog: seq<Call>, s: State, n: nat) returns (i: nat)
    requires Shape(prog, s) && 0 < n <= |s.waiting|
    ensures i < n
    ensures forall j :: 0 <= j < n ==> WantedAt(prog, s, j) <= WantedAt(prog, s, i)
    ensures forall j :: 0 <= j < i ==> WantedAt(prog, s, j) < WantedAt(prog, s, i)
  {
    if n == 1 {
      i := 0;
    } else {
      i := GreatestWish(prog, s, n - 1);
      if WantedAt(prog, s, n - 1) > WantedAt(prog, s, i) {
        i := n - 1;
      }
    }
  }

  /** Whoever holds what the greatest wish conflicts with wants, shared and once more, the same object. */
  lemma HolderWantsItAgain(prog: seq<Call>, rule: GrantRule, s: State, i: nat) returns (d: nat, p: nat)
    requires Bookkeeping(prog, s) && GoodProgram(prog, s.mem.Keys) && Deadlocked(prog, rule, s)
    requires i < |s.waiting|
    requires forall j :: 0 <= j < |s.waiting| ==> WantedAt(prog, s, j) <= WantedAt(prog, s, i)
    requires forall j :: 0 <= j < i ==> WantedAt(prog, s, j) < WantedAt(prog, s, i)
    ensures Holds(prog, s, d, p) && d in s.waiting && d != s.waiting[i]
    ensures prog[d].guards[p].obj == Wanted(prog, s, d).obj == WantedAt(prog, s, i)
    ensures !prog[d].guards[p].mutable && !Wanted(prog, s, d).mutable
    ensures Wanted(prog, s, s.waiting[i]).mutable
  {
    var h := s.waiting[i];
    var wish := Wanted(prog, s, h);
    assert FirstInLine(prog, s, i);
    assert !Enabled(prog, rule, s, Grant(i));
    d, p :| Holds(prog, s, d, p) && Conflict(wish, prog[d].guards[p]);
    UnfinishedWaits(prog, rule, s, d);
    var j :| 0 <= j < |s.waiting| && s.waiting[j] == d;
    assert WantedAt(prog, s, j) <= WantedAt(prog, s, i);
    assert GoodCall(prog[d], s.mem.Keys);
    assert !Conflict(prog[d].guards[p], prog[d].guards[s.calls[d].taken]);
  }

  /** One call borrows an object twice, another one mutably, and what the two take before
      that does not keep them apart. All of it can be read off the argument lists. */
  ghost predicate Prone(prog: seq<Call>, d: nat, h: nat, k: nat, m: nat) {
    && d < |prog| && h < |prog| && d != h
    && k + 1 < |prog[d].guards| && m < |prog[h].guards|
    && prog[d].guards[k].obj == prog[d].guards[k + 1].obj == prog[h].guards[m].obj
    && prog[h].guards[m].mutable
    && forall i, j :: 0 <= i < k && 0 <= j < m ==> !Conflict(prog[d].guards[i], prog[h].guards[j])
  }

  ghost predicate DeadlockProne(prog: seq<Call>) {
    exists d, h, k, m :: Prone(prog, d, h, k, m)
  }

  /** A second shared guard is compatible with whatever the first one is held beside. */
  lemma SecondReadIsCompatible(prog: seq<Call>, s: State, d: nat, p: nat)
    requires |s.calls| == |prog| && Exclusive(prog, s) && Holds(prog, s, d, p) && Wants(prog, s, d)
    requires prog[d].guards[p] == Wanted(prog, s, d) && !Wanted(prog, s, d).mutable
    ensures Compatible(prog, s, Wanted(prog, s, d))
  {
    forall e: nat, q: nat | Holds(prog, s, e, q)
      ensures !Conflict(Wanted(prog, s, d), prog[e].guards[q])
    {
      if (e, q) != (d, p) {
        assert !Conflict(prog[d].guards[p], prog[e].guards[q]);
      }
    }
  }

  lemma PairIsProne(prog: seq<Call>, s: State, d: nat, p: nat, h: nat)
    requires |s.calls| == |prog| && Exclusive(prog, s) && d != h
    requires Wants(prog, s, d) && Wants(prog, s, h) && Accepted(prog[d].guards)
    requires s.calls[d].dropped == s.calls[h].dropped == {}
    requires Holds(prog, s, d, p) && Wanted(prog, s, h).mutable
    requires prog[d].guards[p].obj == Wanted(prog, s, d).obj == Wanted(prog, s, h).obj
    ensures Prone(prog, d, h, s.calls[d].taken - 1, s.calls[h].taken)
  {
    var k, m := s.calls[d].taken - 1, s.calls[h].taken;
    assert prog[d].guards[p].obj <= prog[d].guards[k].obj <= prog[d].guards[k + 1].obj;
    forall a, b | 0 <= a < k && 0 <= b < m
      ensures !Conflict(prog[d].guards[a], prog[h].guards[b])
    {
      assert Holds(prog, s, d, a) && Holds(prog, s, h, b);
    }
  }

  /** h waits in the queue for a mutable guard of an object that d holds shared, and d waits further
      back for a second shared guard of it. */
  ghost predicate ReaderBehindWriter(prog: seq<Call>, s: State, d: nat, p: nat, h: nat)
    requires |s.calls| == |prog|
  {
    && Holds(prog, s, d, p) && Wants(prog, s, d) && Wants(prog, s, h)
    && prog[d].guards[p].obj == Wanted(prog, s, d).obj == Wanted(prog, s, h).obj
    && !prog[d].guards[p].mutable && !Wanted(prog, s, d).mutable && Wanted(prog, s, h).mutable
    && exists i, j :: 0 <= i < j < |s.waiting| && s.waiting[i] == h && s.waiting[j] == d
  }

  /** Every stuck state shows the one cause: a reader behind a writer, under the queueing rule. */
  lemma DeadlockedIsProne(prog: seq<Call>, rule: GrantRule, s: State)
    requires Inv(prog, s) && GoodProgram(prog, s.mem.Keys) && Deadlocked(prog, rule, s)
    ensures rule == FifoQueue && DeadlockProne(prog)
    ensures exists d, p, h :: ReaderBehindWriter(prog, s, d, p, h)
  {
    var c :| 0 <= c < |prog| && !Finished(prog, s, c);
    UnfinishedWaits(prog, rule, s, c);
    var i := GreatestWish(prog, s, |s.waiting|);
    var d, p := HolderWantsItAgain(prog, rule, s, i);
    var h := s.waiting[i];
    var j :| 0 <= j < |s.waiting| && s.waiting[j] == d;
    if rule == IfCompatible {
      SecondReadIsCompatible(prog, s, d, p);
      assert Enabled(prog, rule, s, Grant(j));
    }
    assert WantedAt(prog, s, j) == WantedAt(prog, s, i);
    assert ReaderBehindWriter(prog, s, d, p, h);
    PairIsProne(prog, s, d, p, h);
  }

  // ----- Every step uses up exactly one unit of work -----

  function Work(call: Call, cs: CallState, waiting: bool, entered: bool): int {
    2 * (|call.guards| - cs.taken) - (if waiting then 1 else 0) + (if entered then 0 else 1)
    + (call.len - |cs.log|) + (|call.guards| - |cs.dropped|)
  }

  function CallWork(prog: seq<Call>, s: State, c: nat): int
    requires |s.calls| == |prog| && c < |prog|
  {
    Work(prog[c], s.calls[c], c in s.waiting, c in s.entered)
  }

  /** The work left in the first n calls. */
  function WorkLeft(prog: seq<Call>, s: State, n: nat): int
    requires |s.calls| == |prog| && n <= |prog|
  {
    if n == 0 then 0 else WorkLeft(prog, s, n - 1) + CallWork(prog, s, n - 1)
  }

  /** Two steps a guard to take it, one to drop it, one a call to enter it, one an access. */
  function StepsToFinish(prog: seq<Call>): nat {
    if prog == [] then 0
    else StepsToFinish(prog[..|prog| - 1]) + 3 * |prog[|prog| - 1].guards| + 1 + prog[|prog| - 1].len
  }

  lemma {:induction false} OneCallAdvanced(prog: seq<Call>, s: State, s': State, c: nat, n: nat)
    requires |s.calls| == |s'.calls| == |prog| && c < |prog| && n <= |prog|
    requires forall d :: 0 <= d < |prog| && d != c ==> CallWork(prog, s', d) == CallWork(prog, s, d)
    requires CallWork(prog, s', c) == CallWork(prog, s, c) - 1
    ensures WorkLeft(prog, s', n) == WorkLeft(prog, s, n) - (if c < n then 1 else 0)
  {
    if n > 0 {
      OneCallAdvanced(prog, s, s', c, n - 1);
    }
  }

  function ActingCall(s: State, step: Step): nat
    requires step.Grant? ==> step.position < |s.waiting|
  {
    match step
    case Grant(i) => s.waiting[i]
    case _ => step.call
  }

  lemma StepUsesOneUnit(prog: seq<Call>, rule: GrantRule, s: State, step: Step)
    requires Bookkeeping(prog, s) && Enabled(prog, rule, s, step)
    ensures WorkLeft(prog, Next(prog, rule, s, step), |prog|) == WorkLeft(prog, s, |prog|) - 1
  {
    var s' := Next(prog, rule, s, step);
    var c := ActingCall(s, step);
    if step.Grant? {
      var i := step.position;
      assert forall d :: d != c ==> (d in s'.waiting <==> d in s.waiting) by {
        forall d | d != c && d in s.waiting
          ensures d in s'.waiting
        {
          var j :| 0 <= j < |s.waiting| && s.waiting[j] == d;
          assert s'.waiting[if j < i then j else j - 1] == d;
        }
      }
      assert c !in s'.waiting;
    }
    OneCallAdvanced(prog, s, s', c, |prog|);
  }

  lemma {:induction false} BoundedBy(dropped: set<nat>, n: nat)
    requires forall p :: p in dropped ==> p < n
    ensures |dropped| <= n
    ensures |dropped| == n ==> forall p :: 0 <= p < n ==> p in dropped
    ensures (forall p :: 0 <= p < n ==> p in dropped) ==> |dropped| == n
  {
    if n == 0 {
      assert dropped == {};
    } else {
      BoundedBy(dropped - {n - 1}, n - 1);
      if n - 1 !in dropped {
        assert dropped - {n - 1} == dropped;
      }
    }
  }

  lemma {:induction false} WorkIsNatural(prog: seq<Call>, s: State, n: nat)
    requires Bookkeeping(prog, s) && n <= |prog|
    ensures WorkLeft(prog, s, n) >= 0
    ensures WorkLeft(prog, s, n) == 0 <==> forall c :: 0 <= c < n ==> Finished(prog, s, c)
  {
    if n > 0 {
      WorkIsNatural(prog, s, n - 1);
      var c := n - 1;
      BoundedBy(s.calls[c].dropped, |prog[c].guards|);
      assert PhasesInOrder(prog[c], s.calls[c], c in s.entered);
      assert CallWork(prog, s, c) == 0 <==> Finished(prog, s, c);
      assert c in s.waiting ==> s.calls[c].taken < |prog[c].guards|;
    }
  }

  lemma {:induction false} WorkAtStart(prog: seq<Call>, mem: map<nat, Contents>, n: nat)
    requires n <= |prog|
    ensures WorkLeft(prog, Start(prog, mem), n) == StepsToFinish(prog[..n])
  {
    if n > 0 {
      WorkAtStart(prog, mem, n - 1);
      assert prog[..n][..n - 1] == prog[..n - 1];
    }
  }

  /** Steps taken plus work left is constant: every run ends, and all that finish are equally long. */
  lemma {:induction false} RunLength(prog: seq<Call>, rule: GrantRule, mem: map<nat, Contents>, steps: seq<Step>, s: State)
    requires Run(prog, rule, Start(prog, mem), steps, s)
    ensures Bookkeeping(prog, s)
    ensures |steps| + WorkLeft(prog, s, |prog|) == StepsToFinish(prog)
    ensures |steps| <= StepsToFinish(prog)
    ensures |steps| == StepsToFinish(prog) <==> AllFinished(prog, s)
    decreases |steps|
  {
    RunKeepsInv(prog, rule, mem, steps, s);
    if steps == [] {
      WorkAtStart(prog, mem, |prog|);
      assert prog[..|prog|] == prog;
    } else {
      var mid :| Run(prog, rule, Start(prog, mem), AllButLast(steps), mid) && TakesStep(prog, rule, mid, Last(steps), s);
      RunLength(prog, rule, mem, AllButLast(steps), mid);
      StepUsesOneUnit(prog, rule, mid, Last(steps));
    }
    WorkIsNatural(prog, s, |prog|);
  }

  // ----- A prone program has a run that gets stuck -----

  /** What others hold does not keep c from its first n guards. */
  ghost predicate OthersAllow(prog: seq<Call>, s: State, c: nat, n: nat)
    requires |s.calls| == |prog| && c < |prog| && n <= |prog[c].guards|
  {
    forall i: nat, d: nat, p: nat :: i < n && d != c && Holds(prog, s, d, p) ==>
      !Conflict(prog[c].guards[i], prog[d].guards[p])
  }

  function WithTaken(s: State, c: nat, n: nat): State
    requires c < |s.calls|
  {
    s.(calls := s.calls[c := s.calls[c].(taken := n)])
  }

  lemma TakenTwice(prog: seq<Call>, s: State, c: nat, t: nat, n: nat)
    requires Shape(prog, s) && s.waiting == [] && c < |prog| && t <= |prog[c].guards|
    ensures Shape(prog, WithTaken(s, c, t)) && WithTaken(WithTaken(s, c, t), c, n) == WithTaken(s, c, n)
  {}

  lemma OthersStillAllow(prog: seq<Call>, s: State, c: nat, n: nat, t: nat)
    requires |s.calls| == |prog| && c < |prog| && n <= |prog[c].guards| && OthersAllow(prog, s, c, n)
    ensures OthersAllow(prog, WithTaken(s, c, t), c, n)
  {
    var s' := WithTaken(s, c, t);
    assert forall d: nat, p: nat :: d != c && Holds(prog, s', d, p) ==> Holds(prog, s, d, p);
  }

  lemma NextGuardIsCompatible(prog: seq<Call>, s: State, c: nat, n: nat)
    requires |s.calls| == |prog| && Wants(prog, s, c) && s.calls[c].taken < n <= |prog[c].guards|
    requires Accepted(prog[c].guards) && OthersAllow(prog, s, c, n)
    ensures Compatible(prog, s, Wanted(prog, s, c))
  {}

  lemma AskingChangesNoGuard(prog: seq<Call>, s: State, s1: State, b: Borrow)
    requires |s.calls| == |prog| && s1.calls == s.calls && Compatible(prog, s, b)
    ensures Compatible(prog, s1, b)
  {
    assert forall d: nat, p: nat :: Holds(prog, s1, d, p) <==> Holds(prog, s, d, p);
  }

  lemma GrantFollowsRequest(prog: seq<Call>, rule: GrantRule, s: State, c: nat)
    requires Shape(prog, s) && s.waiting == [] && Wants(prog, s, c) && Compatible(prog, s, Wanted(prog, s, c))
    requires s.calls[c].taken + 1 < |prog[c].guards|
    ensures Enabled(prog, rule, s, Request(c))
    ensures var s1 := Next(prog, rule, s, Request(c));
            TakesStep(prog, rule, s1, Grant(0), WithTaken(s, c, s.calls[c].taken + 1))
  {
    var s1 := Next(prog, rule, s, Request(c));
    assert s1.waiting == [c];
    AskingChangesNoGuard(prog, s, s1, Wanted(prog, s, c));
    assert Next(prog, rule, s1, Grant(0)) == WithTaken(s, c, s.calls[c].taken + 1);
  }

  ghost predicate Reachable(prog: seq<Call>, rule: GrantRule, mem: map<nat, Contents>, s: State) {
    exists steps :: Run(prog, rule, Start(prog, mem), steps, s)
  }

  lemma ReachOneMore(prog: seq<Call>, rule: GrantRule, mem: map<nat, Contents>, s: State, step: Step)
    requires Reachable(prog, rule, mem, s) && Shape(prog, s) && Enabled(prog, rule, s, step)
    ensures Reachable(prog, rule, mem, Next(prog, rule, s, step))
  {
    var steps :| Run(prog, rule, Start(prog, mem), steps, s);
    RunOneMore(prog, rule, Start(prog, mem), steps, s, step);
  }

  lemma TakeOneGuard(prog: seq<Call>, rule: GrantRule, mem: map<nat, Contents>, s: State, c: nat)
    requires Reachable(prog, rule, mem, s)
    requires Shape(prog, s) && s.waiting == [] && Wants(prog, s, c) && Compatible(prog, s, Wanted(prog, s, c))
    requires s.calls[c].taken + 1 < |prog[c].guards|
    ensures Reachable(prog, rule, mem, WithTaken(s, c, s.calls[c].taken + 1))
  {
    GrantFollowsRequest(prog, rule, s, c);
    ReachOneMore(prog, rule, mem, s, Request(c));
    ReachOneMore(prog, rule, mem, Next(prog, rule, s, Request(c)), Grant(0));
  }

  /** With an empty queue a call takes its guards up to n, all but the last ones, given that what others
      hold is compatible. */
  lemma {:induction false} TakeGuards(prog: seq<Call>, rule: GrantRule, mem: map<nat, Contents>, s: State, c: nat, n: nat)
    requires Reachable(prog, rule, mem, s) && Shape(prog, s) && s.waiting == []
    requires c < |prog| && Accepted(prog[c].guards) && s.calls[c].taken <= n < |prog[c].guards|
    requires OthersAllow(prog, s, c, n)
    ensures Reachable(prog, rule, mem, WithTaken(s, c, n)) && Shape(prog, WithTaken(s, c, n))
    decreases n - s.calls[c].taken
  {
    var t := s.calls[c].taken;
    if t == n {
      assert WithTaken(s, c, n) == s;
    } else {
      NextGuardIsCompatible(prog, s, c, n);
      TakeOneGuard(prog, rule, mem, s, c);
      OthersStillAllow(prog, s, c, n, t + 1);
      TakenTwice(prog, s, c, t + 1, n);
      TakeGuards(prog, rule, mem, WithTaken(s, c, t + 1), c, n);
    }
  }

  /** h waits for an object d holds; d waits behind h for the same object. */
  ghost predicate Jam(prog: seq<Call>, s: State, d: nat, h: nat, k: nat, m: nat)
    requires |s.calls| == |prog| && Prone(prog, d, h, k, m)
  {
    && s.calls[d].taken == k + 1 && s.calls[h].taken == m
    && exists i, j :: 0 <= i < j < |s.waiting| && s.waiting[i] == h && s.waiting[j] == d
  }

  lemma JamOutlastsGrants(prog: seq<Call>, s: State, g: nat, d: nat, h: nat, k: nat, m: nat)
    requires Bookkeeping(prog, s) && Enabled(prog, FifoQueue, s, Grant(g))
    requires Prone(prog, d, h, k, m) && Jam(prog, s, d, h, k, m)
    ensures Jam(prog, Next(prog, FifoQueue, s, Grant(g)), d, h, k, m)
  {
    var s' := Next(prog, FifoQueue, s, Grant(g));
    var i, j :| 0 <= i < j < |s.waiting| && s.waiting[i] == h && s.waiting[j] == d;
    assert PhasesInOrder(prog[d], s.calls[d], d in s.entered);
    assert Holds(prog, s, d, k);
    assert s.waiting[g] != h;
    assert WantedAt(prog, s, i) == WantedAt(prog, s, j);
    assert g != j && s.waiting[g] != d;
    var i', j' := if i < g then i else i - 1, if j < g then j else j - 1;
    assert s'.waiting[i'] == h && s'.waiting[j'] == d;
  }

  lemma JamStays(prog: seq<Call>, s: State, step: Step, d: nat, h: nat, k: nat, m: nat)
    requires Bookkeeping(prog, s) && Enabled(prog, FifoQueue, s, step)
    requires Prone(prog, d, h, k, m) && Jam(prog, s, d, h, k, m)
    ensures Jam(prog, Next(prog, FifoQueue, s, step), d, h, k, m)
  {
    if step.Grant? {
      JamOutlastsGrants(prog, s, step.position, d, h, k, m);
    } else {
      var s' := Next(prog, FifoQueue, s, step);
      var i, j :| 0 <= i < j < |s.waiting| && s.waiting[i] == h && s.waiting[j] == d;
      assert s'.waiting[i] == h && s'.waiting[j] == d;
      assert PhasesInOrder(prog[d], s.calls[d], d in s.entered);
    }
  }

  /** A jam outlasts everything the other calls can still do. */
  lemma {:induction false} JamEndsInDeadlock(prog: seq<Call>, mem: map<nat, Contents>, steps: seq<Step>, s: State, d: nat, h: nat, k: nat, m: nat)
    returns (steps': seq<Step>, s': State)
    requires Run(prog, FifoQueue, Start(prog, mem), steps, s) && Bookkeeping(prog, s)
    requires Prone(prog, d, h, k, m) && Jam(prog, s, d, h, k, m)
    ensures Run(prog, FifoQueue, Start(prog, mem), steps', s') && Shape(prog, s') && Deadlocked(prog, FifoQueue, s')
    decreases StepsToFinish(prog) - |steps|
  {
    if step :| Enabled(prog, FifoQueue, s, step) {
      var t := Next(prog, FifoQueue, s, step);
      RunOneMore(prog, FifoQueue, Start(prog, mem), steps, s, step);
      RunLength(prog, FifoQueue, mem, steps + [step], t);
      JamStays(prog, s, step, d, h, k, m);
      steps', s' := JamEndsInDeadlock(prog, mem, steps + [step], t, d, h, k, m);
    } else {
      steps', s' := steps, s;
      assert PhasesInOrder(prog[d], s.calls[d], d in s.entered);
      assert !Finished(prog, s, d);
    }
  }

  /** Once d alone has taken its first k + 1 guards, h can still take its first m. */
  lemma WriterGetsThatFar(prog: seq<Call>, s: State, d: nat, h: nat, k: nat, m: nat)
    requires Prone(prog, d, h, k, m) && Accepted(prog[h].guards)
    requires |s.calls| == |prog| && s.calls[d].taken == k + 1
    requires forall e :: 0 <= e < |prog| && e != d ==> s.calls[e].taken == 0
    ensures OthersAllow(prog, s, h, m)
  {
    forall i: nat, e: nat, p: nat | i < m && e != h && Holds(prog, s, e, p)
      ensures !Conflict(prog[h].guards[i], prog[e].guards[p])
    {
      assert e == d && p <= k;
      if p == k {
        assert !Conflict(prog[h].guards[i], prog[h].guards[m]);
      }
    }
  }

  lemma ProneGetsJammed(prog: seq<Call>, mem: map<nat, Contents>, d: nat, h: nat, k: nat, m: nat) returns (s: State)
    requires GoodProgram(prog, mem.Keys) && Prone(prog, d, h, k, m)
    ensures Reachable(prog, FifoQueue, mem, s) && |s.calls| == |prog| && Jam(prog, s, d, h, k, m)
  {
    var s0 := Start(prog, mem);
    assert GoodCall(prog[d], mem.Keys) && GoodCall(prog[h], mem.Keys);
    assert Run(prog, FifoQueue, s0, [], s0);
    TakeGuards(prog, FifoQueue, mem, s0, d, k + 1);
    var s1 := WithTaken(s0, d, k + 1);
    WriterGetsThatFar(prog, s1, d, h, k, m);
    TakeGuards(prog, FifoQueue, mem, s1, h, m);
    s := BothAsk(prog, mem, WithTaken(s1, h, m), d, h, k, m);
  }

  /** h asks first, then d. */
  lemma BothAsk(prog: seq<Call>, mem: map<nat, Contents>, s: State, d: nat, h: nat, k: nat, m: nat) returns (s': State)
    requires Reachable(prog, FifoQueue, mem, s) && Shape(prog, s) && s.waiting == []
    requires Prone(prog, d, h, k, m) && s.calls[d].taken == k + 1 && s.calls[h].taken == m
    ensures Reachable(prog, FifoQueue, mem, s') && Shape(prog, s') && Jam(prog, s', d, h, k, m)
  {
    ReachOneMore(prog, FifoQueue, mem, s, Request(h));
    var s1 := Next(prog, FifoQueue, s, Request(h));
    ReachOneMore(prog, FifoQueue, mem, s1, Request(d));
    s' := Next(prog, FifoQueue, s1, Request(d));
    assert s'.waiting[0] == h && s'.waiting[1] == d;
  }

  // ----- The theorems -----

  /** With guards granted whenever compatible, no set of accepted calls ever gets stuck. */
  lemma NeverStuckIfCompatible(prog: seq<Call>, mem: map<nat, Contents>)
    requires GoodProgram(prog, mem.Keys)
    ensures DeadlockFree(prog, IfCompatible, mem)
  {
    forall steps, s | Run(prog, IfCompatible, Start(prog, mem), steps, s)
      ensures !(Shape(prog, s) && Deadlocked(prog, IfCompatible, s))
    {
      RunKeepsInv(prog, IfCompatible, mem, steps, s);
      if Deadlocked(prog, IfCompatible, s) {
        DeadlockedIsProne(prog, IfCompatible, s);
      }
    }
  }

  /** With first-come-first-served locks, accepted calls can get stuck exactly when they are prone to it. */
  lemma FifoStuckExactlyIfProne(prog: seq<Call>, mem: map<nat, Contents>)
    requires GoodProgram(prog, mem.Keys)
    ensures DeadlockFree(prog, FifoQueue, mem) <==> !DeadlockProne(prog)
  {
    if DeadlockProne(prog) {
      var d, h, k, m :| Prone(prog, d, h, k, m);
      var s := ProneGetsJammed(prog, mem, d, h, k, m);
      var steps :| Run(prog, FifoQueue, Start(prog, mem), steps, s);
      RunKeepsInv(prog, FifoQueue, mem, steps, s);
      var steps', s' := JamEndsInDeadlock(prog, mem, steps, s, d, h, k, m);
    } else {
      forall steps, s | Run(prog, FifoQueue, Start(prog, mem), steps, s)
        ensures !(Shape(prog, s) && Deadlocked(prog, FifoQueue, s))
      {
        RunKeepsInv(prog, FifoQueue, mem, steps, s);
        if Deadlocked(prog, FifoQueue, s) {
          DeadlockedIsProne(prog, FifoQueue, s);
        }
      }
    }
  }

  /** In particular, calls whose arguments are pairwise different objects never get stuck. */
  lemma DistinctArgumentsNeverStuck(prog: seq<Call>, rule: GrantRule, mem: map<nat, Contents>)
    requires GoodProgram(prog, mem.Keys)
    requires forall c, i, j :: 0 <= c < |prog| && 0 <= i < j < |prog[c].guards| ==> prog[c].guards[i].obj != prog[c].guards[j].obj
    ensures DeadlockFree(prog, rule, mem)
  {
    if rule == IfCompatible {
      NeverStuckIfCompatible(prog, mem);
    } else {
      FifoStuckExactlyIfProne(prog, mem);
    }
  }

  /** f(&a, &a) beside g(&mut a): both pass the borrow check, yet they can get stuck. */
  lemma SharedTwiceCanGetStuck(obj: nat, contents: Contents)
    ensures ConflictFree([LockableOrderInfo(obj, 0, false), LockableOrderInfo(obj, 1, false)])
    ensures ConflictFree([LockableOrderInfo(obj, 0, true)])
    ensures var reader := Call([Borrow(obj, false), Borrow(obj, false)], _ => Read(obj), 0);
            var writer := Call([Borrow(obj, true)], _ => Read(obj), 0);
            GoodProgram([reader, writer], {obj}) && !DeadlockFree([reader, writer], FifoQueue, map[obj := contents])
  {
    var reader := Call([Borrow(obj, false), Borrow(obj, false)], _ => Read(obj), 0);
    var writer := Call([Borrow(obj, true)], _ => Read(obj), 0);
    assert Prone([reader, writer], 0, 1, 0, 0);
    FifoStuckExactlyIfProne([reader, writer], map[obj := contents]);
  }
}
