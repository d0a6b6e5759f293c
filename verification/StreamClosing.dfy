/** Sinks of a Dart stream: clones share one closer, which posts the closing message when the last is gone. */
module StreamClosing {
  type Message(==, !new)

  /** A post that was attempted; the port may have refused it. */
  datatype Post = Data(family: nat, message: Message) | CloseStream(family: nat)

  // ----- Several families on one channel, with drops that interleave -----

  /** A family between the last decrement and the end of the closer's drop is closing. */
  datatype Family = Family(sinks: nat, closing: bool)

  datatype State = State(families: map<nat, Family>, log: seq<Post>)

  datatype Step =
    | Deserialize(f: nat)
    | Clone(f: nat)
    | Add(f: nat, message: Message)
    | Drop(f: nat)
    | DropCloser(f: nat)

  const START := State(map[], [])

  predicate Enabled(s: State, step: Step) {
    match step
    case Deserialize(f) => f !in s.families
    case DropCloser(f) => f in s.families && s.families[f].closing
    case _ => step.f in s.families && s.families[step.f].sinks > 0
  }

  function Next(s: State, step: Step): State
    requires Enabled(s, step)
  {
    match step
    case Deserialize(f) => s.(families := s.families[f := Family(1, false)])
    case Clone(f) => s.(families := s.families[f := Family(s.families[f].sinks + 1, false)])
    case Add(f, m) => s.(log := s.log + [Data(f, m)])
    case Drop(f) =>
      var left := s.families[f].sinks - 1;
      s.(families := s.families[f := Family(left, left == 0)])
    case DropCloser(f) => State(s.families[f := Family(0, false)], s.log + [CloseStream(f)])
  }

  /** In these posts of one family, data comes first, then the closing message exactly when it is due. */
  predicate EndsWithCloseOnlyWhen(posts: seq<Post>, family: nat, due: bool) {
    && (forall p <- posts :: p.family == family)
    && (due <==> posts != [] && posts[|posts| - 1] == CloseStream(family))
    && (forall i :: 0 <= i < |posts| - 1 ==> posts[i].Data?)
  }

  // ----- One family of clones, from one `deserialize`, used by one thread at a time -----

  class SinkFamily {
    const family: nat
    var strong: nat
    var posts: seq<Post>

    /** The family as a state of the transition system. */
    function View(): State
      reads this
    {
      State(map[family := Family(strong, false)], posts)
    }

    ghost predicate Valid()
      reads this
    {
      EndsWithCloseOnlyWhen(posts, family, strong == 0)
    }

    constructor (family: nat)
      ensures Valid() && View() == Next(START, Deserialize(family)) && this.family == family
    {
      this.family, strong, posts := family, 1, [];
    }

    method Clone()
      requires Valid() && strong > 0
      modifies this`strong
      ensures Valid() && View() == Next(old(View()), Step.Clone(family))
    {
      strong := strong + 1;
    }

    /** `add_raw`: false when the port refuses. */
    method AddRaw(message: Message, portIsOpen: bool) returns (ok: bool)
      requires Valid() && strong > 0
      modifies this`posts
      ensures Valid() && View() == Next(old(View()), Add(family, message)) && ok == portIsOpen
    {
      posts := posts + [Data(family, message)];
      ok := portIsOpen;
    }

    /** Dropping a sink, and with the last one the closer. */
    method Drop()
      requires Valid() && strong > 0
      modifies this
      ensures Valid() && strong == old(strong) - 1
      ensures posts == if strong == 0 then old(posts) + [CloseStream(family)] else old(posts)
      ensures var dropped := Next(old(View()), Step.Drop(family));
              View() == if strong == 0 then Next(dropped, DropCloser(family)) else dropped
    {
      strong := strong - 1;
      if strong == 0 {
        posts := posts + [CloseStream(family)];
      }
    }
  }

  // ----- The posts of each family -----

  /** The posts of one family, in order. */
  function PostsOf(log: seq<Post>, f: nat): (posts: seq<Post>)
    ensures forall p <- posts :: p.family == f && p in log
  {
    if log == [] then []
    else
      var last := log[|log| - 1];
      PostsOf(log[..|log| - 1], f) + if last.family == f then [last] else []
  }

  predicate Gone(s: State, f: nat) {
    f in s.families && s.families[f].sinks == 0 && !s.families[f].closing
  }

  predicate Orderly(s: State, f: nat) {
    && EndsWithCloseOnlyWhen(PostsOf(s.log, f), f, Gone(s, f))
    && (f in s.families ==> s.families[f].sinks > 0 ==> !s.families[f].closing)
    && (f !in s.families ==> PostsOf(s.log, f) == [])
  }

  lemma PostsAppend(log: seq<Post>, p: Post, f: nat)
    ensures PostsOf(log + [p], f) == PostsOf(log, f) + if p.family == f then [p] else []
  {
    assert (log + [p])[..|log|] == log;
  }

  lemma OneMorePost(posts: seq<Post>, f: nat, p: Post)
    requires EndsWithCloseOnlyWhen(posts, f, false) && p.family == f
    ensures EndsWithCloseOnlyWhen(posts + [p], f, p.CloseStream?)
  {
    assert posts != [] ==> posts[|posts| - 1] != CloseStream(f);
  }

  lemma OrderWithoutPost(s: State, x: Family, g: nat, f: nat)
    requires Orderly(s, f) && !(g in s.families && s.families[g].sinks == 0) && (x.sinks > 0 <==> !x.closing)
    ensures Orderly(s.(families := s.families[g := x]), f)
  {
  }

  lemma AddKeepsOrder(s: State, g: nat, m: Message, f: nat)
    requires Orderly(s, f) && g in s.families && s.families[g].sinks > 0
    ensures Orderly(s.(log := s.log + [Data(g, m)]), f)
  {
    PostsAppend(s.log, Data(g, m), f);
    if f == g {
      OneMorePost(PostsOf(s.log, f), f, Data(g, m));
    }
  }

  lemma CloseKeepsOrder(s: State, g: nat, f: nat)
    requires Orderly(s, f) && Enabled(s, DropCloser(g))
    ensures Orderly(Next(s, DropCloser(g)), f)
  {
    PostsAppend(s.log, CloseStream(g), f);
    if f == g {
      OneMorePost(PostsOf(s.log, f), f, CloseStream(g));
    }
  }

  lemma StepKeepsOrder(s: State, step: Step, f: nat)
    requires Enabled(s, step) && Orderly(s, f)
    ensures Orderly(Next(s, step), f)
  {
    match step {
      case Deserialize(g) => OrderWithoutPost(s, Family(1, false), g, f);
      case Clone(g) => OrderWithoutPost(s, Family(s.families[g].sinks + 1, false), g, f);
      case Drop(g) =>
        var left := s.families[g].sinks - 1;
        OrderWithoutPost(s, Family(left, left == 0), g, f);
      case Add(g, m) => AddKeepsOrder(s, g, m, f);
      case DropCloser(g) => CloseKeepsOrder(s, g, f);
    }
  }

  predicate Legal(s: State, steps: seq<Step>)
    decreases |steps|
  {
    steps == [] || (Enabled(s, steps[0]) && Legal(Next(s, steps[0]), steps[1..]))
  }

  function After(s: State, steps: seq<Step>): State
    requires Legal(s, steps)
    decreases |steps|
  {
    if steps == [] then s else After(Next(s, steps[0]), steps[1..])
  }

  lemma {:induction false} RunKeepsOrder(s: State, steps: seq<Step>, f: nat)
    requires Legal(s, steps) && Orderly(s, f)
    ensures Orderly(After(s, steps), f)
    decreases |steps|
  {
    if steps != [] {
      StepKeepsOrder(s, steps[0], f);
      RunKeepsOrder(Next(s, steps[0]), steps[1..], f);
    }
  }

  /** In every run, whatever the interleaving: the posts of a family are data, then one closing message
      exactly when every clone is gone and the closer has been dropped; nothing follows it. */
  lemma ClosedExactlyWhenAllClonesAreGone(steps: seq<Step>, f: nat)
    requires Legal(START, steps)
    ensures EndsWithCloseOnlyWhen(PostsOf(After(START, steps).log, f), f, Gone(After(START, steps), f))
  {
    RunKeepsOrder(START, steps, f);
  }

  // ----- The same, from the steps alone -----

  /** The data that these steps add to a family. */
  function Added(steps: seq<Step>, f: nat): seq<Post> {
    if steps == [] then []
    else (if steps[0].Add? && steps[0].f == f then [Data(f, steps[0].message)] else []) + Added(steps[1..], f)
  }

  function Times(steps: seq<Step>, step: Step): nat {
    if steps == [] then 0 else (if steps[0] == step then 1 else 0) + Times(steps[1..], step)
  }

  function Sinks(s: State, f: nat): nat {
    if f in s.families then s.families[f].sinks else 0
  }

  /** A family is closing only without sinks. */
  predicate Sound(s: State, f: nat) {
    f in s.families && s.families[f].sinks > 0 ==> !s.families[f].closing
  }

  /** What one step posts for a family. */
  function Made(step: Step, f: nat): seq<Post> {
    if step.Add? && step.f == f then [Data(f, step.message)]
    else if step == DropCloser(f) then [CloseStream(f)]
    else []
  }

  function AllMade(steps: seq<Step>, f: nat): seq<Post> {
    if steps == [] then [] else Made(steps[0], f) + AllMade(steps[1..], f)
  }

  lemma StepPosts(s: State, step: Step, f: nat)
    requires Enabled(s, step)
    ensures PostsOf(Next(s, step).log, f) == PostsOf(s.log, f) + Made(step, f)
  {
    match step {
      case Add(g, m) => PostsAppend(s.log, Data(g, m), f);
      case DropCloser(g) => PostsAppend(s.log, CloseStream(g), f);
      case _ =>
    }
  }

  lemma {:induction false} RunPosts(s: State, steps: seq<Step>, f: nat)
    requires Legal(s, steps)
    ensures PostsOf(After(s, steps).log, f) == PostsOf(s.log, f) + AllMade(steps, f)
    decreases |steps|
  {
    if steps != [] {
      StepPosts(s, steps[0], f);
      RunPosts(Next(s, steps[0]), steps[1..], f);
      InParts(PostsOf(s.log, f), Made(steps[0], f), AllMade(steps[1..], f));
    }
  }

  lemma InParts(a: seq<Post>, b: seq<Post>, c: seq<Post>)
    ensures a + b + c == a + (b + c)
  {}

  /** Nothing more happens to a family whose closer was dropped. */
  lemma {:induction false} NothingAfterClosing(s: State, steps: seq<Step>, f: nat)
    requires Legal(s, steps) && Gone(s, f)
    ensures AllMade(steps, f) == Added(steps, f) == [] && Times(steps, DropCloser(f)) == 0
    decreases |steps|
  {
    if steps != [] {
      NothingAfterClosing(Next(s, steps[0]), steps[1..], f);
    }
  }

  /** So what is made is the data, and the closing message behind it. */
  lemma {:induction false} DataThenClose(s: State, steps: seq<Step>, f: nat)
    requires Legal(s, steps)
    ensures AllMade(steps, f) == Added(steps, f) + if Times(steps, DropCloser(f)) > 0 then [CloseStream(f)] else []
    decreases |steps|
  {
    if steps != [] {
      var rest := steps[1..];
      if steps[0] == DropCloser(f) {
        NothingAfterClosing(Next(s, steps[0]), rest, f);
      } else {
        DataThenClose(Next(s, steps[0]), rest, f);
        InParts(Made(steps[0], f), Added(rest, f), if Times(rest, DropCloser(f)) > 0 then [CloseStream(f)] else []);
      }
    }
  }

  lemma StepSinks(s: State, step: Step, f: nat)
    requires Enabled(s, step) && Sound(s, f)
    ensures var t := Next(s, step);
            && Sound(t, f)
            && Sinks(t, f) == Sinks(s, f) + (if step == Deserialize(f) || step == Clone(f) then 1 else 0)
                              - (if step == Drop(f) then 1 else 0)
            && (f in t.families <==> f in s.families || step == Deserialize(f))
            && (Gone(t, f) <==> Gone(s, f) || step == DropCloser(f))
  {}

  lemma {:induction false} RunSinks(s: State, steps: seq<Step>, f: nat)
    requires Legal(s, steps) && Sound(s, f)
    ensures var t := After(s, steps);
            && Sound(t, f)
            && Sinks(t, f) == Sinks(s, f) + Times(steps, Deserialize(f)) + Times(steps, Clone(f)) - Times(steps, Drop(f))
            && (f in t.families <==> f in s.families || Times(steps, Deserialize(f)) > 0)
            && (Gone(t, f) <==> Gone(s, f) || Times(steps, DropCloser(f)) > 0)
            && (f in s.families ==> Times(steps, Deserialize(f)) == 0)
            && Times(steps, Deserialize(f)) <= 1
    decreases |steps|
  {
    if steps != [] {
      StepSinks(s, steps[0], f);
      RunSinks(Next(s, steps[0]), steps[1..], f);
    }
  }

  /** In every run, the posts of a family are the data added to it, in order, and one closing message if its
      closer was dropped. That takes one drop more than there were clones; with so many drops it was dropped
      already, or it is what can be done next. */
  lemma PostsAreWhatWasAdded(steps: seq<Step>, f: nat)
    requires Legal(START, steps)
    ensures var s := After(START, steps);
            var closed := Times(steps, DropCloser(f)) > 0;
            var allDropped := Times(steps, Deserialize(f)) > 0 && Times(steps, Drop(f)) == Times(steps, Clone(f)) + 1;
            && PostsOf(s.log, f) == Added(steps, f) + (if closed then [CloseStream(f)] else [])
            && (closed ==> allDropped)
            && (Enabled(s, DropCloser(f)) <==> allDropped && !closed)
  {
    RunPosts(START, steps, f);
    DataThenClose(START, steps, f);
    assert PostsOf(START.log, f) + AllMade(steps, f) == AllMade(steps, f);
    RunSinks(START, steps, f);
  }
}
