/** Rust calling Dart functions: completers kept under call ids, and outputs matched to them. */
module DartFnCalls {
  import opened Wrappers

  // ----- Call ids -----

  /** A 32-bit signed number, as `AtomicI32` holds it. */
  function AsI32(n: int): (i: int)
    ensures -0x8000_0000 <= i < 0x8000_0000 && (i - n) % 0x1_0000_0000 == 0
  {
    (n + 0x8000_0000) % 0x1_0000_0000 - 0x8000_0000
  }

  /** The id of the k-th invocation, counted from zero. */
  function IdOf(k: nat): int {
    AsI32(1 + k)
  }

  /** Two invocations have the same id exactly when their numbers differ by a multiple of 2^32. */
  lemma IdsRepeatExactlyAfterWrap(j: nat, k: nat)
    ensures IdOf(j) == IdOf(k) <==> (j - k) % 0x1_0000_0000 == 0
  {
  }

  /** `fetch_add(1)` takes the counter from one id to the next. */
  lemma NextId(k: nat)
    ensures AsI32(IdOf(k) + 1) == IdOf(k + 1)
  {
  }

  // ----- What happens to the completers -----

  /** The sender under each call id, by the invocation whose future waits on it. */
  type Completers = map<int, nat>

  function Lookup(completers: Completers, callId: int): Option<nat> {
    if callId in completers then Some(completers[callId]) else None
  }

  /** `insert`, which drops a sender already there. */
  function PutCompleter(completers: Completers, callId: int, future: nat): (Completers, Option<nat>) {
    (completers[callId := future], Lookup(completers, callId))
  }

  /** `remove` */
  function TakeCompleter(completers: Completers, callId: int): (Completers, Option<nat>) {
    (completers - {callId}, Lookup(completers, callId))
  }

  type Message(==, !new)

  // ----- Interleavings -----

  /** An invocation draws its id, inserts its completer, then posts the call. Its future can be
      answered, abandoned by its owner (an answer is then lost), or cancelled when its sender is dropped. */
  datatype Status = Drawn | Waiting | Abandoned | Answered(message: Message) | Lost | Cancelled

  /** One answer that reached a future. */
  datatype Answer = Answer(future: nat, callId: int, message: Message)

  datatype State = State(
    status: seq<Status>,
    completers: Completers,
    posted: set<nat>,
    answers: seq<Answer>)

  datatype Step =
    | Draw
    | Insert(k: nat)
    | Post(k: nat)
    | Abandon(k: nat)
    | Output(callId: int, message: Message)

  const START := State([], map[], {}, [])

  predicate Pending(status: Status) {
    status == Waiting || status == Abandoned
  }

  /** Outputs are not restricted: they may carry any id at any time. */
  predicate Enabled(s: State, step: Step) {
    match step
    case Draw => true
    case Insert(k) => k < |s.status| && s.status[k] == Drawn
    case Post(k) => k < |s.status| && s.status[k] != Drawn && k !in s.posted
    case Abandon(k) => k < |s.status| && s.status[k] == Waiting
    case Output(_, _) => true
  }

  function Next(s: State, step: Step): State
    requires Enabled(s, step)
  {
    match step
    case Draw => s.(status := s.status + [Drawn])
    case Insert(k) => InsertStep(s, k)
    case Post(k) => s.(posted := s.posted + {k})
    case Abandon(k) => s.(status := s.status[k := Abandoned])
    case Output(id, m) => OutputStep(s, id, m)
  }

  function InsertStep(s: State, k: nat): State
    requires k < |s.status|
  {
    var (completers, dropped) := PutCompleter(s.completers, IdOf(k), k);
    var status := if dropped.Some? && dropped.value < |s.status| then s.status[dropped.value := Cancelled] else s.status;
    s.(status := status[k := Waiting], completers := completers)
  }

  function OutputStep(s: State, id: int, m: Message): State {
    var (completers, completer) := TakeCompleter(s.completers, id);
    var taken := s.(completers := completers);
    match completer
    case None => taken
    case Some(k) =>
      if k < |s.status| && s.status[k] == Waiting then
        taken.(status := s.status[k := Answered(m)], answers := s.answers + [Answer(k, id, m)])
      else if k < |s.status| then taken.(status := s.status[k := Lost])
      else taken
  }

  // ----- The handler -----

  /** Keeps in its fields what the transition system says of completers and ids. */
  class DartFnHandler {
    var completers: Completers
    var nextCallId: int
    ghost var drawn: nat

    ghost predicate Valid()
      reads this
    {
      nextCallId == IdOf(drawn)
    }

    /** The fields hold the completers of s, and the id of the invocation that draws next. */
    ghost predicate Holds(s: State)
      reads this
    {
      Valid() && completers == s.completers && drawn == |s.status|
    }

    constructor ()
      ensures Holds(START)
    {
      completers, nextCallId, drawn := map[], 1, 0;
    }

    method FetchAdd(ghost s: State) returns (callId: int)
      requires Holds(s)
      modifies this`nextCallId, this`drawn
      ensures callId == IdOf(|s.status|) && Holds(Next(s, Draw))
    {
      NextId(drawn);
      callId := nextCallId;
      nextCallId := AsI32(nextCallId + 1);
      drawn := drawn + 1;
    }

    method InsertCompleter(ghost s: State, callId: int, future: nat) returns (dropped: Option<nat>)
      requires Holds(s) && Enabled(s, Insert(future)) && callId == IdOf(future)
      modifies this`completers
      ensures Holds(Next(s, Insert(future))) && dropped == Lookup(s.completers, callId)
    {
      dropped := Lookup(completers, callId);
      completers := completers[callId := future];
    }

    /** The part of an invocation before its post, when nothing interrupts it. */
    method Invoke(ghost s: State, future: nat) returns (callId: int, dropped: Option<nat>)
      requires Holds(s) && future == |s.status|
      modifies this
      ensures callId == IdOf(future) && dropped == Lookup(s.completers, callId)
      ensures Holds(Next(Next(s, Draw), Insert(future)))
    {
      ghost var drawing := Next(s, Draw);
      callId := FetchAdd(s);
      dropped := InsertCompleter(drawing, callId, future);
    }

    /** The completer that an output is sent to; none for an unknown id. */
    method HandleOutput(ghost s: State, callId: int, message: Message) returns (completer: Option<nat>)
      requires Holds(s)
      modifies this`completers
      ensures completer == Lookup(s.completers, callId) && Holds(Next(s, Output(callId, message)))
    {
      completer := Lookup(completers, callId);
      completers := completers - {callId};
    }
  }

  // ----- The invariant -----

  /** The completers are those of the pending futures, under their own ids. */
  predicate Matched(s: State, k: nat) {
    k < |s.status| && Pending(s.status[k]) <==> IdOf(k) in s.completers && s.completers[IdOf(k)] == k
  }

  ghost predicate Inv(s: State) {
    && (forall k: nat :: Matched(s, k))
    && (forall id :: id in s.completers ==> IdOf(s.completers[id]) == id)
    && (forall k :: k in s.posted ==> k < |s.status| && s.status[k] != Drawn)
    && (forall i :: 0 <= i < |s.answers| ==> GoodAnswer(s, s.answers[i]))
    && (forall i, j :: 0 <= i < j < |s.answers| ==> s.answers[i].future != s.answers[j].future)
  }

  predicate GoodAnswer(s: State, a: Answer) {
    a.future < |s.status| && s.status[a.future] == Answered(a.message) && a.callId == IdOf(a.future)
  }

  lemma InsertKeepsMatched(s: State, k: nat, other: nat)
    requires Inv(s) && Enabled(s, Insert(k))
    ensures Matched(InsertStep(s, k), other)
  {
    assert Matched(s, other) && Matched(s, k);
    if IdOf(k) in s.completers {
      assert Matched(s, s.completers[IdOf(k)]);
    }
  }

  lemma OutputKeepsMatched(s: State, id: int, m: Message, other: nat)
    requires Inv(s)
    ensures Matched(OutputStep(s, id, m), other)
  {
    assert Matched(s, other);
    if id in s.completers {
      assert Matched(s, s.completers[id]);
    }
  }

  lemma StepKeepsMatched(s: State, step: Step, k: nat)
    requires Inv(s) && Enabled(s, step)
    ensures Matched(Next(s, step), k)
  {
    match step {
      case Insert(j) => InsertKeepsMatched(s, j, k);
      case Output(id, m) => OutputKeepsMatched(s, id, m, k);
      case Draw => assert Matched(s, k);
      case Post(_) => assert Matched(s, k);
      case Abandon(_) => assert Matched(s, k);
    }
  }

  /** A future that is answered, lost or cancelled stays so. */
  lemma SettledStays(s: State, step: Step, k: nat)
    requires Inv(s) && Enabled(s, step) && k < |s.status| && s.status[k] != Drawn && !Pending(s.status[k])
    ensures k < |Next(s, step).status| && Next(s, step).status[k] == s.status[k]
  {
    assert Matched(s, k);
    if step.Output? && step.callId in s.completers {
      assert Matched(s, s.completers[step.callId]);
    } else if step.Insert? && IdOf(step.k) in s.completers {
      assert Matched(s, s.completers[IdOf(step.k)]);
    }
  }

  lemma StepKeepsAnswers(s: State, step: Step)
    requires Inv(s) && Enabled(s, step)
    ensures var t := Next(s, step);
            && (forall i :: 0 <= i < |t.answers| ==> GoodAnswer(t, t.answers[i]))
            && (forall i, j :: 0 <= i < j < |t.answers| ==> t.answers[i].future != t.answers[j].future)
  {
    var t := Next(s, step);
    forall i | 0 <= i < |s.answers| ensures GoodAnswer(t, s.answers[i]) {
      assert GoodAnswer(s, s.answers[i]);
      SettledStays(s, step, s.answers[i].future);
    }
    if step.Output? && step.callId in s.completers {
      var k := s.completers[step.callId];
      assert Matched(s, k);
      assert forall i :: 0 <= i < |s.answers| ==> GoodAnswer(s, s.answers[i]) && s.answers[i].future != k;
    }
  }

  lemma StepKeepsInv(s: State, step: Step)
    requires Inv(s) && Enabled(s, step)
    ensures Inv(Next(s, step))
  {
    var t := Next(s, step);
    StepKeepsAnswers(s, step);
    forall k: nat ensures Matched(t, k) { StepKeepsMatched(s, step, k); }
    forall k | k in t.posted ensures k < |t.status| && t.status[k] != Drawn {
      StaysInserted(s, step, k);
    }
  }

  lemma StaysInserted(s: State, step: Step, k: nat)
    requires Enabled(s, step) && k < |s.status| && s.status[k] != Drawn
    ensures k < |Next(s, step).status| && Next(s, step).status[k] != Drawn
  {
  }

  predicate Legal(s: State, steps: seq<Step>)
    decreases |steps|
  {
    steps == [] || (Enabled(s, steps[0]) && Legal(Next(s, steps[0]), steps[1..]))
  }

  function After(s: State, steps: seq<Step>): State
    requires Legal(s, steps)
    decreases |steps|
  {
    if steps == [] then s else After(Next(s, steps[0]), steps[1..])
  }

  lemma {:induction false} RunKeepsInv(s: State, steps: seq<Step>)
    requires Inv(s) && Legal(s, steps)
    ensures Inv(After(s, steps))
    decreases |steps|
  {
    if steps != [] {
      StepKeepsInv(s, steps[0]);
      RunKeepsInv(Next(s, steps[0]), steps[1..]);
    }
  }

  // ----- What every run guarantees -----

  /** Each future is answered at most once, only by an output that carries its id, and with that
      output's message. */
  lemma AnsweredOnceByItsOwnId(steps: seq<Step>, i: nat, j: nat)
    requires Legal(START, steps) && i < |After(START, steps).answers| && j < |After(START, steps).answers|
    ensures var answers := After(START, steps).answers;
            && answers[i].callId == IdOf(answers[i].future)
            && (answers[i].future == answers[j].future ==> i == j)
  {
    RunKeepsInv(START, steps);
    assert GoodAnswer(After(START, steps), After(START, steps).answers[i]);
  }

  /** The output whose id belongs to a pending future settles that future and touches no other;
      any other output, early, duplicate or unknown, changes nothing. */
  lemma OutputSettlesExactlyItsFuture(steps: seq<Step>, id: int, m: Message, k: nat)
    requires Legal(START, steps) && k < |After(START, steps).status|
    ensures var s := After(START, steps);
            var t := OutputStep(s, id, m);
            && t.status[k] == (if IdOf(k) != id then s.status[k]
                               else if s.status[k] == Waiting then Answered(m)
                               else if s.status[k] == Abandoned then Lost
                               else s.status[k])
            && (t != s <==> exists j: nat :: j < |s.status| && Pending(s.status[j]) && IdOf(j) == id)
  {
    RunKeepsInv(START, steps);
    var s := After(START, steps);
    assert Matched(s, k);
    if id in s.completers {
      var j := s.completers[id];
      assert Matched(s, j) && Pending(s.status[j]);
      assert id !in OutputStep(s, id, m).completers;
    } else {
      forall j: nat | j < |s.status| && Pending(s.status[j]) ensures IdOf(j) != id {
        assert Matched(s, j);
      }
    }
  }

  /** A call whose message was posted has had its completer inserted: an output cannot come too early. */
  lemma PostedIsInserted(steps: seq<Step>, k: nat)
    requires Legal(START, steps) && k in After(START, steps).posted
    ensures k < |After(START, steps).status| && After(START, steps).status[k] != Drawn
  {
    RunKeepsInv(START, steps);
  }

  /** Steps that leave a waiting future alone. */
  predicate Spares(step: Step, k: nat) {
    match step
    case Insert(j) => IdOf(j) != IdOf(k)
    case Abandon(j) => j != k
    case Output(id, _) => id != IdOf(k)
    case _ => true
  }

  lemma {:induction false} WaitsOn(s: State, steps: seq<Step>, k: nat)
    requires Inv(s) && Legal(s, steps) && k < |s.status| && s.status[k] == Waiting
    requires forall step <- steps :: Spares(step, k)
    ensures k < |After(s, steps).status| && After(s, steps).status[k] == Waiting
    decreases |steps|
  {
    if steps != [] {
      var step := steps[0];
      assert Matched(s, k) && Spares(step, k);
      if step.Output? && step.callId in s.completers {
        assert Matched(s, s.completers[step.callId]);
      } else if step.Insert? && IdOf(step.k) in s.completers {
        assert Matched(s, s.completers[IdOf(step.k)]);
      }
      StepKeepsInv(s, step);
      WaitsOn(Next(s, step), steps[1..], k);
    }
  }

  lemma {:induction false} SettledForGood(s: State, steps: seq<Step>, k: nat)
    requires Inv(s) && Legal(s, steps) && k < |s.status| && s.status[k] != Drawn && !Pending(s.status[k])
    ensures k < |After(s, steps).status| && After(s, steps).status[k] == s.status[k]
    decreases |steps|
  {
    if steps != [] {
      SettledStays(s, steps[0], k);
      StepKeepsInv(s, steps[0]);
      SettledForGood(Next(s, steps[0]), steps[1..], k);
    }
  }

  lemma {:induction false} LegalAppend(s: State, a: seq<Step>, b: seq<Step>)
    requires Legal(s, a + b)
    ensures Legal(s, a) && Legal(After(s, a), b) && After(After(s, a), b) == After(s, a + b)
    decreases |a|
  {
    if a == [] {
      assert a + b == b;
    } else {
      assert (a + b)[1..] == a[1..] + b;
      LegalAppend(Next(s, a[0]), a[1..], b);
    }
  }

  /** A waiting call that nothing disturbs is answered by the first output with its id. */
  lemma WaitingIsAnswered(s: State, between: seq<Step>, m: Message, after: seq<Step>, k: nat)
    requires Inv(s) && Legal(s, between + ([Output(IdOf(k), m)] + after))
    requires k < |s.status| && s.status[k] == Waiting && forall step <- between :: Spares(step, k)
    ensures var end := After(s, between + ([Output(IdOf(k), m)] + after));
            k < |end.status| && end.status[k] == Answered(m) && Answer(k, IdOf(k), m) in end.answers
  {
    var output := Output(IdOf(k), m);
    var rest := [output] + after;
    LegalAppend(s, between, rest);
    RunKeepsInv(s, between);
    WaitsOn(s, between, k);
    var t := After(s, between);
    assert Matched(t, k);
    assert rest[0] == output && rest[1..] == after;
    StepKeepsInv(t, output);
    var u := Next(t, output);
    assert u.answers[|t.answers|] == Answer(k, IdOf(k), m);
    SettledForGood(u, after, k);
    AnswersStay(u, after);
  }

  lemma {:induction false} AnswersStay(s: State, steps: seq<Step>)
    requires Legal(s, steps)
    ensures forall a :: a in s.answers ==> a in After(s, steps).answers
    decreases |steps|
  {
    if steps != [] {
      AnswersStay(Next(s, steps[0]), steps[1..]);
    }
  }

  /** In every run, once a call has inserted its completer: if nothing abandons it and no invocation reuses
      its id in between, the first output with its id answers it, for the rest of the run. */
  lemma FirstOutputAnswers(before: seq<Step>, between: seq<Step>, m: Message, after: seq<Step>, k: nat)
    requires Legal(START, before + [Insert(k)] + between + [Output(IdOf(k), m)] + after)
    requires forall step <- between :: Spares(step, k)
    ensures var end := After(START, before + [Insert(k)] + between + [Output(IdOf(k), m)] + after);
            k < |end.status| && end.status[k] == Answered(m) && Answer(k, IdOf(k), m) in end.answers
  {
    var insert := Insert(k);
    var rest := between + ([Output(IdOf(k), m)] + after);
    assert before + [insert] + between + [Output(IdOf(k), m)] + after == before + ([insert] + rest);
    LegalAppend(START, before, [insert] + rest);
    RunKeepsInv(START, before);
    var s := After(START, before);
    assert ([insert] + rest)[0] == insert && ([insert] + rest)[1..] == rest;
    StepKeepsInv(s, insert);
    WaitingIsAnswered(Next(s, insert), between, m, after, k);
  }

  predicate GivenUp(s: State, k: nat) {
    k < |s.status| && (s.status[k] == Abandoned || s.status[k] == Lost)
  }

  lemma GivenUpByStep(s: State, step: Step, k: nat)
    requires Inv(s) && Enabled(s, step) && GivenUp(Next(s, step), k) && !GivenUp(s, k)
    ensures step == Abandon(k)
  {
    assert Matched(s, k);
  }

  lemma {:induction false} GivenUpInRun(s: State, steps: seq<Step>, k: nat)
    requires Inv(s) && Legal(s, steps) && GivenUp(After(s, steps), k)
    ensures GivenUp(s, k) || Abandon(k) in steps
    decreases |steps|
  {
    if steps != [] {
      StepKeepsInv(s, steps[0]);
      GivenUpInRun(Next(s, steps[0]), steps[1..], k);
      if GivenUp(Next(s, steps[0]), k) && !GivenUp(s, k) {
        GivenUpByStep(s, steps[0], k);
      }
      assert forall x :: x in steps[1..] ==> x in steps;
    }
  }

  /** A call counts as abandoned, or its answer as lost, only if its owner abandoned it. */
  lemma GivenUpOnlyByItsOwner(steps: seq<Step>, k: nat)
    requires Legal(START, steps) && GivenUp(After(START, steps), k)
    ensures Abandon(k) in steps
  {
    GivenUpInRun(START, steps, k);
  }

  // ----- What was drawn, posted and answered -----

  function Draws(steps: seq<Step>): nat {
    if steps == [] then 0 else (if steps[0].Draw? then 1 else 0) + Draws(steps[1..])
  }

  ghost predicate Recorded(s: State) {
    forall k: nat, m: Message :: k < |s.status| && s.status[k] == Answered(m) ==> Answer(k, IdOf(k), m) in s.answers
  }

  lemma StepKeepsRecorded(s: State, step: Step)
    requires Inv(s) && Enabled(s, step) && Recorded(s)
    ensures Recorded(Next(s, step))
  {
    var t := Next(s, step);
    forall k: nat, m: Message | k < |t.status| && t.status[k] == Answered(m)
      ensures Answer(k, IdOf(k), m) in t.answers
    {
      if k >= |s.status| || s.status[k] != Answered(m) {
        assert t.answers[|s.answers|] == Answer(k, IdOf(k), m);
      }
    }
  }

  lemma {:induction false} RunAccounts(s: State, steps: seq<Step>)
    requires Inv(s) && Legal(s, steps) && Recorded(s)
    ensures Recorded(After(s, steps)) && |After(s, steps).status| == |s.status| + Draws(steps)
    ensures forall k :: k in After(s, steps).posted <==> k in s.posted || Post(k) in steps
    decreases |steps|
  {
    if steps != [] {
      StepKeepsRecorded(s, steps[0]);
      StepKeepsInv(s, steps[0]);
      RunAccounts(Next(s, steps[0]), steps[1..]);
      assert forall x :: x in steps <==> x == steps[0] || x in steps[1..];
    }
  }

  /** In every run: as many calls as ids were drawn, posted are exactly those with a post, and every call
      that counts as answered has its answer. */
  lemma EveryCallIsAccountedFor(steps: seq<Step>)
    requires Legal(START, steps)
    ensures var s := After(START, steps);
            && |s.status| == Draws(steps)
            && (forall k :: k in s.posted <==> Post(k) in steps)
            && Recorded(s)
  {
    RunAccounts(START, steps);
  }

  // ----- Reused ids -----

  /** A future is cancelled exactly by an insertion a multiple of 2^32 invocations away, while it is pending. */
  lemma CancelledExactlyByReuse(steps: seq<Step>, step: Step, k: nat)
    requires Legal(START, steps) && Enabled(After(START, steps), step) && k < |After(START, steps).status|
    requires After(START, steps).status[k] != Cancelled
    ensures Next(After(START, steps), step).status[k] == Cancelled
            <==> step.Insert? && Pending(After(START, steps).status[k]) && (step.k - k) % 0x1_0000_0000 == 0
  {
    RunKeepsInv(START, steps);
    var s := After(START, steps);
    assert Matched(s, k);
    if step.Insert? {
      IdsRepeatExactlyAfterWrap(step.k, k);
      if IdOf(step.k) in s.completers {
        assert Matched(s, s.completers[IdOf(step.k)]);
      }
    }
  }

  predicate NoneCancelled(s: State) {
    forall k :: 0 <= k < |s.status| ==> s.status[k] != Cancelled
  }

  /** As long as no more than 2^32 calls were made, none is cancelled. */
  lemma NoneCancelledBeforeWrap(steps: seq<Step>)
    requires Legal(START, steps) && |After(START, steps).status| <= 0x1_0000_0000
    ensures NoneCancelled(After(START, steps))
  {
    assert [] + steps == steps;
    NoneCancelledFrom([], steps);
  }

  lemma {:induction false} NoneCancelledFrom(before: seq<Step>, steps: seq<Step>)
    requires Legal(START, before + steps) && Legal(START, before) && Legal(After(START, before), steps)
    requires NoneCancelled(After(START, before)) && |After(After(START, before), steps).status| <= 0x1_0000_0000
    ensures NoneCancelled(After(After(START, before), steps))
    decreases |steps|
  {
    if steps != [] {
      var s, step := After(START, before), steps[0];
      LongerAfter(Next(s, step), steps[1..]);
      forall k | 0 <= k < |s.status| ensures Next(s, step).status[k] != Cancelled {
        CancelledExactlyByReuse(before, step, k);
      }
      assert before + steps == (before + [step]) + steps[1..];
      LegalAppend(START, before + [step], steps[1..]);
      LegalAppend(START, before, [step]);
      assert [step][0] == step && [step][1..] == [];
      NoneCancelledFrom(before + [step], steps[1..]);
    }
  }

  lemma {:induction false} LongerAfter(s: State, steps: seq<Step>)
    requires Legal(s, steps)
    ensures |s.status| <= |After(s, steps).status|
    decreases |steps|
  {
    if steps != [] {
      LongerAfter(Next(s, steps[0]), steps[1..]);
    }
  }

  lemma {:induction false} DrawMany(s: State, n: nat) returns (steps: seq<Step>)
    ensures Legal(s, steps)
    ensures After(s, steps) == s.(status := s.status + seq(n, _ => Drawn))
    decreases n
  {
    if n == 0 {
      steps := [];
      assert s.status + seq(0, _ => Drawn) == s.status;
    } else {
      var rest := DrawMany(Next(s, Draw), n - 1);
      steps := [Draw] + rest;
      assert steps[1..] == rest;
      assert s.status + [Drawn] + seq(n - 1, _ => Drawn) == s.status + seq(n, _ => Drawn);
    }
  }

  /** The wrap is real: a call still waiting when its id comes round again is cancelled. */
  lemma CancellationIsReachable() returns (steps: seq<Step>)
    ensures Legal(START, steps)
    ensures |After(START, steps).status| > 0 && After(START, steps).status[0] == Cancelled
  {
    var s1 := Next(START, Draw);
    var s2 := Next(s1, Insert(0));
    var many := DrawMany(s2, 0x1_0000_0000);
    var s3 := After(s2, many);
    IdsRepeatExactlyAfterWrap(0x1_0000_0000, 0);
    var last := Insert(0x1_0000_0000);
    assert [last][0] == last && [last][1..] == [];
    assert After(s3, [last]) == Next(s3, last);
    LegalConcat(s2, many, [last]);
    var tail := many + [last];
    steps := [Draw, Insert(0)] + tail;
    assert steps[1..] == [Insert(0)] + tail && ([Insert(0)] + tail)[1..] == tail;
    assert After(s1, steps[1..]) == After(s2, tail);
  }

  lemma {:induction false} LegalConcat(s: State, a: seq<Step>, b: seq<Step>)
    requires Legal(s, a) && Legal(After(s, a), b)
    ensures Legal(s, a + b) && After(s, a + b) == After(After(s, a), b)
    decreases |a|
  {
    if a == [] {
      assert a + b == b;
    } else {
      LegalConcat(Next(s, a[0]), a[1..], b);
      assert (a + b)[1..] == a[1..] + b;
    }
  }
}
