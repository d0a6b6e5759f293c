/** What every access of every body returns, said of the accesses alone. */
module SerialReads {
  import opened LockableOrder
  import opened GuardProtocol
  import opened DeadlockFreedom
  import opened Serializability

  /** An access that was done, and what the body saw of it. */
  datatype Done = Done(access: Access, saw: Contents)

  /** The accesses of one body: each depends on what the body saw before. */
  function BodyDone(call: Call, log: seq<Contents>): seq<Done> {
    seq(|log|, k requires 0 <= k < |log| => Done(call.act(log[..k]), log[k]))
  }

  /** The accesses of all bodies, one body after the other, in the order of the last grants. */
  function History(prog: seq<Call>, s: State, n: nat): seq<Done>
    requires |s.calls| == |prog| && n <= |s.acquired| && forall i :: 0 <= i < n ==> s.acquired[i] < |prog|
  {
    if n == 0 then []
    else History(prog, s, n - 1) + BodyDone(prog[s.acquired[n - 1]], s.calls[s.acquired[n - 1]].log)
  }

  /** The value of the last write to an object, or what the object held at first. */
  function LastWritten(h: seq<Done>, obj: nat, first: Contents): Contents {
    if h == [] then first
    else
      var last := h[|h| - 1].access;
      if last.Write? && last.obj == obj then last.value else LastWritten(h[..|h| - 1], obj, first)
  }

  /** Each read returns the value written last before it. */
  ghost predicate ReadsLastWrites(h: seq<Done>, mem: map<nat, Contents>) {
    forall n :: 0 <= n < |h| ==> RightlySeen(h, n, mem)
  }

  ghost predicate RightlySeen(h: seq<Done>, n: nat, mem: map<nat, Contents>)
    requires n < |h|
  {
    match h[n].access
    case Read(o) => o in mem && h[n].saw == LastWritten(h[..n], o, mem[o])
    case Write(o, v) => o in mem && h[n].saw == v
  }

  ghost predicate HoldsLastWrites(h: seq<Done>, mem: map<nat, Contents>, now: map<nat, Contents>) {
    now.Keys == mem.Keys && forall o :: o in mem ==> now[o] == LastWritten(h, o, mem[o])
  }

  /** A write is the last one to its object in a history if none follows; without writes there is none. */
  lemma {:induction false} LastWrittenMeans(h: seq<Done>, obj: nat, first: Contents)
    ensures (forall i :: 0 <= i < |h| ==> !WritesTo(h[i], obj)) ==> LastWritten(h, obj, first) == first
    ensures forall i :: 0 <= i < |h| && WritesTo(h[i], obj) && (forall j :: i < j < |h| ==> !WritesTo(h[j], obj)) ==>
                          LastWritten(h, obj, first) == h[i].access.value
  {
    if h != [] && !WritesTo(h[|h| - 1], obj) {
      LastWrittenMeans(h[..|h| - 1], obj, first);
    }
  }

  predicate WritesTo(d: Done, obj: nat) {
    d.access.Write? && d.access.obj == obj
  }

  // ----- One body, then all in turn -----

  lemma OneMoreDone(h: seq<Done>, d: Done, mem: map<nat, Contents>, now: map<nat, Contents>, log: seq<Contents>)
    requires ReadsLastWrites(h, mem) && HoldsLastWrites(h, mem, now) && d.access.obj in now
    requires d.saw == match d.access case Read(o) => now[o] case Write(_, v) => v
    ensures ReadsLastWrites(h + [d], mem)
    ensures HoldsLastWrites(h + [d], mem, Perform(d.access, now, log).0)
  {
    var more := h + [d];
    assert more[..|h|] == h;
    forall n | 0 <= n < |more| ensures RightlySeen(more, n, mem) {
      assert n < |h| ==> more[..n] == h[..n] && RightlySeen(h, n, mem);
    }
  }

  lemma {:induction false} AloneReads(call: Call, h: seq<Done>, mem: map<nat, Contents>, now: map<nat, Contents>, k: nat)
    requires ReadsLastWrites(h, mem) && HoldsLastWrites(h, mem, now) && Disciplined(call, mem.Keys) && k <= call.len
    ensures var (m, log) := Alone(call, now, k);
            ReadsLastWrites(h + BodyDone(call, log), mem) && HoldsLastWrites(h + BodyDone(call, log), mem, m)
  {
    if k == 0 {
      assert h + BodyDone(call, []) == h;
    } else {
      AloneReads(call, h, mem, now, k - 1);
      AloneShape(call, now, k - 1);
      var (m, log) := Alone(call, now, k - 1);
      var access := call.act(log);
      assert Allowed(call.guards, access);
      var d := Done(access, match access case Read(o) => m[o] case Write(_, v) => v);
      OneMoreDone(h + BodyDone(call, log), d, mem, m, log);
      BodyOneMore(call, log, d.saw);
      assert h + BodyDone(call, log) + [d] == h + BodyDone(call, log + [d.saw]);
      assert Alone(call, now, k) == (Perform(access, m, log).0, log + [d.saw]);
    }
  }

  lemma BodyOneMore(call: Call, log: seq<Contents>, v: Contents)
    ensures BodyDone(call, log + [v]) == BodyDone(call, log) + [Done(call.act(log), v)]
  {
    var more := log + [v];
    assert more[..|log|] == log;
    assert forall k :: 0 <= k < |log| ==> more[..k] == log[..k];
  }

  lemma {:induction false} InTurnReads(prog: seq<Call>, s: State, mem: map<nat, Contents>, n: nat)
    requires Serial(prog, s, mem) && n <= |s.acquired|
    ensures ReadsLastWrites(History(prog, s, n), mem)
    ensures HoldsLastWrites(History(prog, s, n), mem, InTurn(Portions(prog, s), mem, n))
  {
    if n > 0 {
      var ps, c := Portions(prog, s), s.acquired[n - 1];
      InTurnReads(prog, s, mem, n - 1);
      AloneReads(prog[c], History(prog, s, n - 1), mem, InTurn(ps, mem, n - 1), ps[n - 1].steps);
      assert Logs(prog, s)[n - 1] == Sees(ps, mem, n - 1);
    }
  }

  /** At every point of every run, in the order of the last grants: each read returned the value of the last
      write to its object before it, or the first contents; each object holds the value of its last write. */
  lemma EveryReadSeesTheLastWrite(prog: seq<Call>, rule: GrantRule, mem: map<nat, Contents>, steps: seq<Step>, s: State)
    requires GoodProgram(prog, mem.Keys) && Run(prog, rule, Start(prog, mem), steps, s)
    ensures |s.calls| == |prog| && forall i :: 0 <= i < |s.acquired| ==> s.acquired[i] < |prog|
    ensures var h := History(prog, s, |s.acquired|);
            ReadsLastWrites(h, mem) && HoldsLastWrites(h, mem, s.mem)
  {
    RunIsSerial(prog, rule, mem, steps, s);
    InTurnReads(prog, s, mem, |s.acquired|);
  }

  lemma OrderIsComplete(prog: seq<Call>, rule: GrantRule, mem: map<nat, Contents>, steps: seq<Step>, s: State)
    requires GoodProgram(prog, mem.Keys) && Run(prog, rule, Start(prog, mem), steps, s)
    requires |s.calls| == |prog| && AllFinished(prog, s)
    ensures IsPermutation(s.acquired, |prog|)
  {
    FinishedRunsAreSerial(prog, rule, mem, steps, s);
  }

  /** In a finished run that history has every access of every body: each call is in the order once, and
      its body has seen as many accesses as it makes. */
  lemma FinishedHistoryIsComplete(prog: seq<Call>, rule: GrantRule, mem: map<nat, Contents>, steps: seq<Step>, s: State)
    requires GoodProgram(prog, mem.Keys) && Run(prog, rule, Start(prog, mem), steps, s)
    requires |s.calls| == |prog| && AllFinished(prog, s)
    ensures IsPermutation(s.acquired, |prog|) && forall c :: 0 <= c < |prog| ==> |s.calls[c].log| == prog[c].len
  {
    OrderIsComplete(prog, rule, mem, steps, s);
    forall c | 0 <= c < |prog| ensures |s.calls[c].log| == prog[c].len {
      assert Finished(prog, s, c);
    }
  }
}
