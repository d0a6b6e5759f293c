/** Which token streams a second conversion leaves as the first one made them. */
module AttrSettling {
  import opened Wrappers
  import opened AttrEncoder
  import opened AttrDecoding

  // ----- Streams that the scan leaves as they are -----

  /** At every level, each `#` is followed by a group that makes no frb attribute with it, or by an equal `#`. */
  predicate Still(ts: TokenStream) {
    ts == [] || (PoundHeadOk(ts) && !AttrHere(ts) && (ts[0].Group? ==> Still(ts[0].stream)) && Still(ts[1..]))
  }

  lemma {:induction false} PoundFreeIsStill(ts: TokenStream)
    requires PoundFree(ts)
    ensures Still(ts)
  {
    if ts != [] {
      PoundFreeIsStill(ts[1..]);
      if ts[0].Group? {
        PoundFreeIsStill(ts[0].stream);
      }
    }
  }

  lemma CommentIsStill(pr: Printer, s: TokenStream)
    ensures Still(CommentGroup(pr, s).stream)
  {
    var comment := CommentGroup(pr, s);
    assert Documentation(comment).Some?;
    DocumentationHasNoPound(comment);
    PoundFreeIsStill(comment.stream);
  }

  lemma {:induction false} UnchangedExactlyWhenStill(pr: Printer, ts: TokenStream)
    ensures Scan(pr, None, ts) == ts <==> Still(ts)
    decreases ts, 0
  {
    if ts != [] {
      var t, rest := ts[0], ts[1..];
      assert [t] + rest == ts;
      if IsPound(t) {
        UnchangedHolding(pr, t, rest);
      } else {
        UnchangedExactlyWhenStill(pr, rest);
        if t.Group? {
          UnchangedExactlyWhenStill(pr, t.stream);
        }
        SameParts([if t.Group? then ScannedGroup(pr, t) else t], Scan(pr, None, rest), [t], rest);
      }
    }
  }

  lemma {:induction false} UnchangedHolding(pr: Printer, p: Token, ts: TokenStream)
    requires IsPound(p)
    ensures Scan(pr, Some(p), ts) == [p] + ts <==> Still([p] + ts)
    decreases ts, 1
  {
    var all := [p] + ts;
    assert all[0] == p && all[1..] == ts;
    if ts == [] {
      return;
    }
    var t, rest := ts[0], ts[1..];
    assert all == [p, t] + rest && ts == [t] + rest;
    if IsFrbBracket(t) {
      var comment := CreateFrbEncodedComment(pr, t.stream);
      SameParts(comment, Scan(pr, None, rest), [p, t], rest);
      assert comment[1] != [p, t][1];
    } else if t.Group? {
      var out := ScannedGroup(pr, t);
      UnchangedExactlyWhenStill(pr, rest);
      UnchangedExactlyWhenStill(pr, t.stream);
      assert Scan(pr, Some(p), ts) == [p, out] + Scan(pr, None, rest);
      SameParts([p, out], Scan(pr, None, rest), [p, t], rest);
      assert [p, out][1] == out && [p, t][1] == t;
    } else {
      SameParts([t], Scan(pr, Some(p), rest), [p], ts);
      if t == p {
        UnchangedHolding(pr, p, rest);
      }
    }
  }

  // ----- Converting twice -----

  /** The place of the first group; the length if there is none. */
  function FirstGroup(ts: TokenStream): (k: nat)
    ensures k <= |ts| && (k < |ts| ==> ts[k].Group?) && forall i :: 0 <= i < k ==> !ts[i].Group?
  {
    if ts == [] || ts[0].Group? then 0 else 1 + FirstGroup(ts[1..])
  }

  /** The first `#` of a run of tokens, the tokens behind it, and all tokens but it. */
  function FirstPound(run: TokenStream): Option<Token> {
    if run == [] then None else if IsPound(run[0]) then Some(run[0]) else FirstPound(run[1..])
  }

  function BehindPound(run: TokenStream): TokenStream {
    if run == [] then [] else if IsPound(run[0]) then run[1..] else BehindPound(run[1..])
  }

  function Others(run: TokenStream): (others: TokenStream)
    ensures forall t <- others :: t in run
  {
    if run == [] then [] else if IsPound(run[0]) then run[1..] else [run[0]] + Others(run[1..])
  }

  predicate AllAre(run: TokenStream, q: Token) {
    run == [] || (run[0] == q && AllAre(run[1..], q))
  }

  /** From the first `#` on, all tokens are q. */
  predicate OnlyFromPound(run: TokenStream, q: Token) {
    run == [] || if IsPound(run[0]) then AllAre(run, q) else OnlyFromPound(run[1..], q)
  }

  /** Without its first `#`, which the scan moves, this bracket begins like an frb attribute. */
  predicate HidesAttribute(t: Token) {
    t.Group? && t.delimiter == Bracket && 2 <= |t.stream| && IsPound(t.stream[0]) && t.stream[1] == Ident("frb")
  }

  /** For a run of tokens up to the next group, or up to the end. The scan takes out the first `#` and puts
      it before the group. That settles the run exactly when, from the second `#` on, all tokens are what
      then stands before the group, which does not become an attribute; at the end there must be no second. */
  predicate RunSettles(run: TokenStream, next: Option<Token>) {
    FirstPound(run) == None ||
    match next
    case None => FirstPound(BehindPound(run)) == None
    case Some(t) =>
      && !HidesAttribute(t)
      && OnlyFromPound(BehindPound(run), if IsFrbBracket(t) then Punct('#', Alone) else FirstPound(run).value)
  }

  /** After one conversion of this stream a second one changes nothing. */
  predicate Settles(ts: TokenStream) {
    var k := FirstGroup(ts);
    if k == |ts| then RunSettles(ts, None)
    else
      && RunSettles(ts[..k], Some(ts[k]))
      && ((FirstPound(ts[..k]).Some? && IsFrbBracket(ts[k])) || Settles(ts[k].stream))
      && Settles(ts[k + 1..])
  }

  predicate NoGroups(run: TokenStream) {
    forall t <- run :: !t.Group?
  }

  lemma {:induction false} ScanPasses(pr: Printer, p: Token, run: TokenStream, rest: TokenStream)
    requires NoGroups(run)
    ensures Scan(pr, Some(p), run + rest) == run + Scan(pr, Some(p), rest)
  {
    if run == [] {
      assert run + rest == rest;
    } else {
      assert (run + rest)[0] == run[0] && (run + rest)[1..] == run[1..] + rest;
      ScanPasses(pr, p, run[1..], rest);
      assert run == [run[0]] + run[1..];
    }
  }

  lemma {:induction false} ScanOfRun(pr: Printer, run: TokenStream, rest: TokenStream)
    requires NoGroups(run)
    ensures Scan(pr, None, run + rest) == Others(run) + Scan(pr, FirstPound(run), rest)
  {
    if run == [] {
      assert run + rest == rest;
    } else {
      assert (run + rest)[0] == run[0] && (run + rest)[1..] == run[1..] + rest;
      if IsPound(run[0]) {
        ScanPasses(pr, run[0], run[1..], rest);
      } else {
        ScanOfRun(pr, run[1..], rest);
      }
    }
  }

  lemma {:induction false} NothingTaken(run: TokenStream)
    requires FirstPound(run) == None
    ensures Others(run) == run
  {
    if run != [] {
      NothingTaken(run[1..]);
    }
  }

  // Runs of a still stream.

  /** What a run before a group must be like. */
  predicate RunStill(run: TokenStream, t: Token) {
    run == [] ||
    ((IsPound(run[0]) ==> if 1 < |run| then run[1] == run[0] else !IsFrbBracket(t)) && RunStill(run[1..], t))
  }

  lemma {:induction false} StillWithGroup(run: TokenStream, t: Token, rest: TokenStream)
    requires NoGroups(run) && t.Group?
    ensures Still(run + [t] + rest) <==> RunStill(run, t) && Still(t.stream) && Still(rest)
  {
    var all := run + [t] + rest;
    if run == [] {
      assert all[0] == t && all[1..] == rest;
    } else {
      StillWithGroup(run[1..], t, rest);
      assert all[1..] == run[1..] + [t] + rest && all[0] == run[0];
      assert all[1] == if |run| > 1 then run[1] else t;
    }
  }

  lemma {:induction false} StillAtEnd(run: TokenStream)
    requires NoGroups(run)
    ensures Still(run) <==> FirstPound(run) == None
  {
    if run != [] {
      StillAtEnd(run[1..]);
    }
  }

  lemma {:induction false} PlainRunStill(run: TokenStream, t: Token)
    requires FirstPound(run) == None
    ensures RunStill(run, t)
  {
    if run != [] {
      PlainRunStill(run[1..], t);
    }
  }

  /** With a `#` put at its end, a run is still exactly when it equals that `#` from its first one on. */
  lemma {:induction false} TailStill(run: TokenStream, q: Token, t: Token)
    requires IsPound(q)
    ensures RunStill(run + [q], t) <==> !IsFrbBracket(t) && OnlyFromPound(run, q)
  {
    if run == [] {
      assert run + [q] == [q] && [q][1..] == [];
    } else {
      var rest := run[1..];
      var all := run + [q];
      assert all[0] == run[0] && all[1..] == rest + [q] && all[1] == if rest == [] then q else rest[0];
      TailStill(rest, q, t);
      assert RunStill(all, t) <==> (IsPound(run[0]) ==> all[1] == run[0]) && RunStill(rest + [q], t);
      if IsPound(run[0]) {
        assert OnlyFromPound(run, q) <==> run[0] == q && AllAre(rest, q);
        PoundsAlike(rest, q, run[0]);
      }
    }
  }

  lemma PoundsAlike(rest: TokenStream, q: Token, p: Token)
    requires IsPound(p) && IsPound(q)
    ensures (if rest == [] then q == p else rest[0] == p && OnlyFromPound(rest, q)) <==> p == q && AllAre(rest, q)
  {
    if rest != [] && AllAre(rest, q) {
      assert rest[0] == q;
    }
  }

  lemma {:induction false} MovedRunStill(run: TokenStream, q: Token, t: Token)
    requires FirstPound(run).Some? && IsPound(q)
    ensures RunStill(Others(run) + [q], t) <==> !IsFrbBracket(t) && OnlyFromPound(BehindPound(run), q)
  {
    if IsPound(run[0]) {
      TailStill(run[1..], q, t);
    } else {
      MovedRunStill(run[1..], q, t);
      assert (Others(run) + [q])[1..] == Others(run[1..]) + [q];
    }
  }

  lemma {:induction false} OthersAtEnd(run: TokenStream)
    ensures FirstPound(Others(run)) == None <==> FirstPound(run) == None || FirstPound(BehindPound(run)) == None
  {
    if run != [] && !IsPound(run[0]) {
      OthersAtEnd(run[1..]);
      assert Others(run)[1..] == Others(run[1..]);
    }
  }

  lemma ScanStart(pr: Printer, s: TokenStream)
    ensures StartsWithFrb(Scan(pr, None, s))
            <==> StartsWithFrb(s) || (2 <= |s| && IsPound(s[0]) && s[1] == Ident("frb"))
  {
    if s != [] && IsPound(s[0]) {
      var rest := s[1..];
      assert Scan(pr, None, s) == Scan(pr, Some(s[0]), rest);
      if rest != [] {
        assert rest[0] == s[1];
        assert s[1].Group? ==> IsPound(Scan(pr, Some(s[0]), rest)[0]);
      }
    }
  }

  // One run and the group behind it, in the three cases of the scan; the run at the end.

  lemma PlainSegment(pr: Printer, run: TokenStream, t: Token, rest: TokenStream)
    requires NoGroups(run) && t.Group? && FirstPound(run) == None
    ensures Still(Scan(pr, None, run + [t] + rest))
            <==> Still(Scan(pr, None, t.stream)) && Still(Scan(pr, None, rest))
  {
    PlainOutput(pr, run, t, rest);
    StillWithGroup(run, ScannedGroup(pr, t), Scan(pr, None, rest));
    PlainRunStill(run, ScannedGroup(pr, t));
  }

  lemma PlainOutput(pr: Printer, run: TokenStream, t: Token, rest: TokenStream)
    requires NoGroups(run) && t.Group? && FirstPound(run) == None
    ensures Scan(pr, None, run + [t] + rest) == run + [ScannedGroup(pr, t)] + Scan(pr, None, rest)
  {
    InParts(run, [t], rest);
    ScanOfRun(pr, run, [t] + rest);
    NothingTaken(run);
    ScanOfGroup(pr, t, rest);
    InParts(run, [ScannedGroup(pr, t)], Scan(pr, None, rest));
  }

  lemma ScanOfGroup(pr: Printer, t: Token, rest: TokenStream)
    requires t.Group?
    ensures Scan(pr, None, [t] + rest) == [ScannedGroup(pr, t)] + Scan(pr, None, rest)
  {
    assert ([t] + rest)[1..] == rest;
  }

  /** What the scan makes of a run with a `#` and the group behind it. */
  lemma SegmentOutput(pr: Printer, run: TokenStream, t: Token, rest: TokenStream, q: Token, g: Token)
    requires NoGroups(run) && t.Group? && FirstPound(run).Some?
    requires [q, g] == if IsFrbBracket(t) then CreateFrbEncodedComment(pr, t.stream) else [FirstPound(run).value, ScannedGroup(pr, t)]
    ensures Scan(pr, None, run + [t] + rest) == (Others(run) + [q]) + [g] + Scan(pr, None, rest)
  {
    var later := Scan(pr, None, rest);
    InParts(run, [t], rest);
    ScanOfRun(pr, run, [t] + rest);
    assert Scan(pr, FirstPound(run), [t] + rest) == [q, g] + later;
    InParts(Others(run), [q, g], later);
    InParts(Others(run), [q], [g]);
  }

  lemma {:induction false} FirstPoundIsPound(run: TokenStream)
    requires FirstPound(run).Some?
    ensures IsPound(FirstPound(run).value)
  {
    if !IsPound(run[0]) {
      FirstPoundIsPound(run[1..]);
    }
  }

  lemma AttributeSegment(pr: Printer, run: TokenStream, t: Token, rest: TokenStream)
    requires NoGroups(run) && IsFrbBracket(t) && FirstPound(run).Some?
    ensures Still(Scan(pr, None, run + [t] + rest)) <==> RunSettles(run, Some(t)) && Still(Scan(pr, None, rest))
  {
    var q, g := Punct('#', Alone), CommentGroup(pr, t.stream);
    SegmentOutput(pr, run, t, rest, q, g);
    StillWithGroup(Others(run) + [q], g, Scan(pr, None, rest));
    CommentIsStill(pr, t.stream);
    MovedRunStill(run, q, g);
  }

  lemma GroupSegment(pr: Printer, run: TokenStream, t: Token, rest: TokenStream)
    requires NoGroups(run) && t.Group? && !IsFrbBracket(t) && FirstPound(run).Some?
    ensures Still(Scan(pr, None, run + [t] + rest))
            <==> RunSettles(run, Some(t)) && Still(Scan(pr, None, t.stream)) && Still(Scan(pr, None, rest))
  {
    var q, g := FirstPound(run).value, ScannedGroup(pr, t);
    FirstPoundIsPound(run);
    SegmentOutput(pr, run, t, rest, q, g);
    StillWithGroup(Others(run) + [q], g, Scan(pr, None, rest));
    ScanStart(pr, t.stream);
    MovedRunStill(run, q, g);
  }

  lemma EndSegment(pr: Printer, run: TokenStream)
    requires NoGroups(run)
    ensures Still(Scan(pr, None, run)) <==> RunSettles(run, None)
  {
    ScanOfRun(pr, run, []);
    assert run + [] == run && Others(run) + [] == Others(run);
    StillAtEnd(Others(run));
    OthersAtEnd(run);
  }

  lemma Segment(pr: Printer, run: TokenStream, t: Token, rest: TokenStream)
    requires NoGroups(run) && t.Group?
    requires Still(Scan(pr, None, t.stream)) <==> Settles(t.stream)
    ensures Still(Scan(pr, None, run + [t] + rest))
            <==> RunSettles(run, Some(t)) && ((FirstPound(run).Some? && IsFrbBracket(t)) || Settles(t.stream))
                 && Still(Scan(pr, None, rest))
  {
    if FirstPound(run) == None {
      PlainSegment(pr, run, t, rest);
    } else if IsFrbBracket(t) {
      AttributeSegment(pr, run, t, rest);
    } else {
      GroupSegment(pr, run, t, rest);
    }
  }

  lemma {:induction false} ScanIsStillExactlyWhen(pr: Printer, ts: TokenStream)
    ensures Still(Scan(pr, None, ts)) <==> Settles(ts)
  {
    var k := FirstGroup(ts);
    if k == |ts| {
      EndSegment(pr, ts);
    } else {
      ScanIsStillExactlyWhen(pr, ts[k].stream);
      ScanIsStillExactlyWhen(pr, ts[k + 1..]);
      Segment(pr, ts[..k], ts[k], ts[k + 1..]);
      assert ts == ts[..k] + [ts[k]] + ts[k + 1..];
    }
  }

  /** Converting twice is converting once exactly for the streams that `Settles` describes. */
  lemma ConvertTwiceExactlyWhen(pr: Printer, ts: TokenStream)
    ensures Scan(pr, None, Scan(pr, None, ts)) == Scan(pr, None, ts) <==> Settles(ts)
  {
    UnchangedExactlyWhenStill(pr, Scan(pr, None, ts));
    ScanIsStillExactlyWhen(pr, ts);
  }

  /** In particular for every tidy stream. */
  lemma ConvertTwice(pr: Printer, ts: TokenStream)
    requires Tidy(ts)
    ensures Settles(ts) && Scan(pr, None, Scan(pr, None, ts)) == Scan(pr, None, ts)
  {
    ConvertIsRewriteExactlyWhenTidy(pr, ts);
    RewriteIsStill(pr, ts);
    ScanIsStillExactlyWhen(pr, ts);
    ConvertTwiceExactlyWhen(pr, ts);
  }

  lemma {:induction false} RewriteIsStill(pr: Printer, ts: TokenStream)
    requires Tidy(ts)
    ensures Still(Rewrite(pr, ts))
  {
    var us := Rewrite(pr, ts);
    if ts == [] {
    } else if AttrHere(ts) {
      RewriteIsStill(pr, ts[2..]);
      CommentIsStill(pr, ts[1].stream);
      assert us[1..][1..] == Rewrite(pr, ts[2..]);
    } else {
      RewriteIsStill(pr, ts[1..]);
      assert us[1..] == Rewrite(pr, ts[1..]);
      if ts[0].Group? {
        RewriteIsStill(pr, ts[0].stream);
      }
    }
  }
}
