/** Finding the hidden attributes again in the expanded crate. */
module AttrDecoding {
  import opened Wrappers
  import opened SseFormat
  import opened AttrEncoder

  // ----- Encoded comments -----

  predicate IsPunct(t: Token, ch: char) {
    t.Punct? && t.ch == ch
  }

  /** The text of `doc = ".."`. */
  function DocText(ts: TokenStream): Option<string> {
    if |ts| == 3 && ts[0] == Ident("doc") && IsPunct(ts[1], '=') && ts[2].Literal? then Some(ts[2].text) else None
  }

  /** The documentation a bracket adds, by whether the crate is compiled with `frb_expand` set. */
  function DocumentationIf(frbExpand: bool, t: Token): Option<string> {
    if !t.Group? || t.delimiter != Bracket then None
    else if |t.stream| == 2 && t.stream[0] == Ident("cfg_attr") && t.stream[1].Group? && t.stream[1].delimiter == Parenthesis then
      var inner := t.stream[1].stream;
      if frbExpand && |inner| == 5 && inner[0] == Ident("frb_expand") && IsPunct(inner[1], ',') then DocText(inner[2..])
      else None
    else DocText(t.stream)
  }

  /** What cargo-expand finds: it runs with `frb_expand` set. */
  function Documentation(t: Token): Option<string> {
    DocumentationIf(true, t)
  }

  /** What stands between the parentheses of `frb_encoded(..)`. */
  function Encoded(t: Token): Option<string> {
    match Documentation(t)
    case None => None
    case Some(text) =>
      var n := |PREFIX|;
      if n < |text| && text[..n] == PREFIX && text[|text| - 1] == ')' then Some(text[n..|text| - 1]) else None
  }

  /** The tokens of the text behind the digits; None is a panic, or text that cannot be read. */
  function Payload(pr: Printer, digits: string): Option<TokenStream> {
    match UnHex(digits)
    case Some(bytes) => pr.parse(bytes)
    case None => None
  }

  /** The text of the attribute `#[s]` reads back as that attribute. */
  predicate AttributeReads(pr: Printer, s: TokenStream) {
    pr.parse(Attribute(pr, s)) == Some([Punct('#', Alone), Group(Bracket, s)])
  }

  lemma CommentDocumentation(pr: Printer, s: TokenStream)
    ensures Documentation(CommentGroup(pr, s)) == Some(PREFIX + Hex(Attribute(pr, s)) + ")")
  {
    var inner := CommentGroup(pr, s).stream[1].stream;
    assert inner[2..] == [inner[2], inner[3], inner[4]];
  }

  /** An encoded comment is documentation for cargo-expand only, and its digits are those of the
      attribute's text. */
  lemma CommentIsHidden(pr: Printer, s: TokenStream)
    ensures DocumentationIf(false, CommentGroup(pr, s)) == None
    ensures Encoded(CommentGroup(pr, s)).Some?
    ensures UnHex(Encoded(CommentGroup(pr, s)).value) == Some(['#' as int, '[' as int] + pr.print_(s) + [']' as int])
  {
    var digits := Hex(Attribute(pr, s));
    CommentDocumentation(pr, s);
    HexReadBack(Attribute(pr, s));
    Unwrapped(digits);
  }

  lemma PayloadReadBack(pr: Printer, s: TokenStream)
    requires AttributeReads(pr, s)
    ensures Encoded(CommentGroup(pr, s)).Some?
    ensures Payload(pr, Encoded(CommentGroup(pr, s)).value) == Some([Punct('#', Alone), Group(Bracket, s)])
  {
    var digits := Hex(Attribute(pr, s));
    CommentDocumentation(pr, s);
    HexReadBack(Attribute(pr, s));
    Unwrapped(digits);
  }

  lemma Unwrapped(digits: string)
    ensures var text := PREFIX + digits + ")";
            |PREFIX| < |text| && text[..|PREFIX|] == PREFIX && text[|text| - 1] == ')' && text[|PREFIX|..|text| - 1] == digits
  {}

  predicate CommentHere(ts: TokenStream) {
    2 <= |ts| && IsPound(ts[0]) && Encoded(ts[1]).Some?
  }

  function Before(head: TokenStream, rest: Option<TokenStream>): Option<TokenStream> {
    match rest
    case Some(r) => Some(head + r)
    case None => None
  }

  /** What is done to the output of cargo-expand: every encoded comment, whatever it carries, is
      replaced by the text that it encodes. */
  function DecodeComments(pr: Printer, ts: TokenStream): Option<TokenStream> {
    if ts == [] then Some([])
    else if CommentHere(ts) then
      match Payload(pr, Encoded(ts[1]).value)
      case Some(s) => Before(s, DecodeComments(pr, ts[2..]))
      case None => None
    else if ts[0].Group? then
      match DecodeComments(pr, ts[0].stream)
      case Some(inner) => Before([Group(ts[0].delimiter, inner)], DecodeComments(pr, ts[1..]))
      case None => None
    else Before([ts[0]], DecodeComments(pr, ts[1..]))
  }

  // ----- How much text tokens take -----

  /** The characters in the tokens. */
  function TextSize(ts: TokenStream): nat {
    if ts == [] then 0 else TokenSize(ts[0]) + TextSize(ts[1..])
  }

  function TokenSize(t: Token): nat {
    match t
    case Punct(_, _) => 1
    case Ident(name) => |name|
    case Literal(text) => |text|
    case Group(d, stream) => (if d == NoDelimiter then 0 else 2) + TextSize(stream)
  }

  /** Reading may add to the text, but not much: a doc comment becomes an attribute. */
  ghost predicate ReadsLittleMore(pr: Printer) {
    forall bytes: seq<u8> :: pr.parse(bytes).Some? ==> TextSize(pr.parse(bytes).value) <= 2 * |bytes| + 12
  }

  // ----- Streams without any `#` -----

  predicate PoundFreeToken(t: Token) {
    !IsPound(t) && (t.Group? ==> PoundFree(t.stream))
  }

  predicate PoundFree(ts: TokenStream) {
    ts == [] || (PoundFreeToken(ts[0]) && PoundFree(ts[1..]))
  }

  lemma {:induction false} PoundFreeStays(pr: Printer, ts: TokenStream)
    requires PoundFree(ts)
    ensures Tidy(ts) && Rewrite(pr, ts) == ts
  {
    if ts != [] {
      PoundFreeStays(pr, ts[1..]);
      if ts[0].Group? {
        PoundFreeStays(pr, ts[0].stream);
      }
    }
  }

  /** If rewriting leaves no `#`, there was nothing to rewrite. */
  lemma {:induction false} PoundFreeWas(pr: Printer, ts: TokenStream)
    requires PoundFree(Rewrite(pr, ts))
    ensures Rewrite(pr, ts) == ts
  {
    if ts != [] && !AttrHere(ts) {
      assert Rewrite(pr, ts)[1..] == Rewrite(pr, ts[1..]);
      PoundFreeWas(pr, ts[1..]);
      if ts[0].Group? {
        PoundFreeWas(pr, ts[0].stream);
      }
    }
  }

  /** If the scan leaves no `#`, it has added no comment. */
  lemma {:induction false} PoundFreeScan(pr: Printer, pound: Option<Token>, ts: TokenStream)
    requires PoundFree(Scan(pr, pound, ts)) && (pound.Some? ==> IsPound(pound.value))
    ensures TextSize(Scan(pr, pound, ts)) <= TextSize(ts)
    decreases ts
  {
    if ts != [] {
      var t, out := ts[0], Scan(pr, pound, ts);
      if pound.None? && IsPound(t) {
        PoundFreeScan(pr, Some(t), ts[1..]);
      } else if t.Group? {
        assert pound == None;
        assert out[1..] == Scan(pr, None, ts[1..]);
        PoundFreeScan(pr, None, t.stream);
        PoundFreeScan(pr, None, ts[1..]);
      } else {
        assert out[1..] == Scan(pr, pound, ts[1..]);
        PoundFreeScan(pr, pound, ts[1..]);
      }
    }
  }

  lemma OfTwo(a: Token, b: Token)
    ensures PoundFree([a, b]) <==> PoundFreeToken(a) && PoundFreeToken(b)
    ensures TextSize([a, b]) == TokenSize(a) + TokenSize(b)
    ensures PoundFree([a]) <==> PoundFreeToken(a)
    ensures TextSize([a]) == TokenSize(a)
  {
    var all := [a, b];
    assert all[0] == a && all[1..] == [b] && [b][1..] == [] && [a][1..] == [];
    assert PoundFree([b]) <==> PoundFreeToken(b);
    assert TextSize([b]) == TokenSize(b);
  }

  lemma OfThree(a: Token, b: Token, c: Token)
    ensures PoundFree([a, b, c]) <==> PoundFreeToken(a) && PoundFreeToken(b) && PoundFreeToken(c)
    ensures TextSize([a, b, c]) == TokenSize(a) + TokenSize(b) + TokenSize(c)
  {
    var all := [a, b, c];
    OfTwo(b, c);
    assert all[0] == a && all[1..] == [b, c];
    assert PoundFree(all) <==> PoundFreeToken(a) && PoundFree(all[1..]);
    assert TextSize(all) == TokenSize(a) + TextSize(all[1..]);
  }

  lemma DocHasNoPound(ts: TokenStream)
    requires DocText(ts).Some?
    ensures PoundFree(ts) && |DocText(ts).value| <= TextSize(ts)
  {
    OfThree(ts[0], ts[1], ts[2]);
    assert ts == [ts[0], ts[1], ts[2]];
  }

  lemma ExpandHasNoPound(inner: TokenStream)
    requires |inner| == 5 && inner[0] == Ident("frb_expand") && IsPunct(inner[1], ',') && DocText(inner[2..]).Some?
    ensures PoundFree(inner) && |DocText(inner[2..]).value| <= TextSize(inner)
  {
    var others := inner[1..];
    DocHasNoPound(inner[2..]);
    assert others[1..] == inner[2..] && others[0] == inner[1];
    assert PoundFree(others) <==> PoundFreeToken(others[0]) && PoundFree(others[1..]);
    assert TextSize(others) == TokenSize(others[0]) + TextSize(others[1..]);
    assert TextSize(inner) == TokenSize(inner[0]) + TextSize(others);
  }

  lemma DocumentationHasNoPound(t: Token)
    requires Documentation(t).Some?
    ensures PoundFree(t.stream) && |Documentation(t).value| <= TextSize(t.stream)
  {
    if t.stream[0] == Ident("cfg_attr") {
      ExpandHasNoPound(t.stream[1].stream);
      OfTwo(t.stream[0], t.stream[1]);
      assert t.stream == [t.stream[0], t.stream[1]];
    } else {
      DocHasNoPound(t.stream);
    }
  }

  // ----- Converting and finding again -----

  /** At no nesting level outside frb attributes is there an encoded comment already. */
  predicate NoComments(ts: TokenStream) {
    ts == [] ||
    if AttrHere(ts) then NoComments(ts[2..])
    else !CommentHere(ts) && (ts[0].Group? ==> NoComments(ts[0].stream)) && NoComments(ts[1..])
  }

  /** Each frb attribute in the stream reads back from its text. */
  predicate ReadsBack(pr: Printer, ts: TokenStream) {
    ts == [] ||
    (ReadsBackToken(pr, ts[0]) && ReadsBack(pr, ts[1..]))
  }

  predicate ReadsBackToken(pr: Printer, t: Token) {
    t.Group? ==> ReadsBack(pr, t.stream) && (IsFrbBracket(t) ==> AttributeReads(pr, t.stream))
  }

  function Restore(pr: Printer, pound: Option<Token>, ts: TokenStream): Option<TokenStream> {
    DecodeComments(pr, Scan(pr, pound, ts))
  }

  /** Decoding gives back the original exactly when it was tidy and held no encoded comment. */
  lemma DecodeRestoresExactlyWhen(pr: Printer, ts: TokenStream)
    requires ReadsLittleMore(pr) && ReadsBack(pr, ts)
    ensures DecodeComments(pr, Scan(pr, None, ts)) == Some(ts) <==> Tidy(ts) && NoComments(ts)
  {
    RestoredFromNothing(pr, ts);
  }

  lemma BeforeIs(head: TokenStream, rest: Option<TokenStream>, head': TokenStream, rest': TokenStream)
    requires |head| == |head'|
    ensures Before(head, rest) == Some(head' + rest') <==> head == head' && rest == Some(rest')
  {
    if rest.Some? {
      SameParts(head, rest.value, head', rest');
    }
  }

  lemma BeforeTwice(a: TokenStream, b: TokenStream, rest: Option<TokenStream>)
    ensures Before(a, Before(b, rest)) == Before(a + b, rest)
  {
    if rest.Some? {
      assert a + (b + rest.value) == a + b + rest.value;
    }
  }

  // What decoding makes of each part that the scan puts out.

  lemma RestoreAttribute(pr: Printer, p: Token, t: Token, rest: TokenStream)
    requires IsFrbBracket(t) && AttributeReads(pr, t.stream)
    ensures Restore(pr, Some(p), [t] + rest) == Before([Punct('#', Alone), t], Restore(pr, None, rest))
  {
    var later := Scan(pr, None, rest);
    var scanned := CreateFrbEncodedComment(pr, t.stream) + later;
    PayloadReadBack(pr, t.stream);
    assert Scan(pr, Some(p), [t] + rest) == scanned;
    assert scanned[1] == CommentGroup(pr, t.stream) && scanned[2..] == later;
    assert CommentHere(scanned);
  }

  function ScannedGroup(pr: Printer, t: Token): Token
    requires t.Group?
  {
    Group(t.delimiter, Scan(pr, None, t.stream))
  }

  lemma RestoreComment(pr: Printer, p: Token, t: Token, rest: TokenStream)
    requires IsPound(p) && t.Group? && !IsFrbBracket(t) && Encoded(ScannedGroup(pr, t)).Some?
    ensures Restore(pr, Some(p), [t] + rest) ==
            match Payload(pr, Encoded(ScannedGroup(pr, t)).value)
            case Some(s) => Before(s, Restore(pr, None, rest))
            case None => None
  {
    var scanned := [p, ScannedGroup(pr, t)] + Scan(pr, None, rest);
    assert Scan(pr, Some(p), [t] + rest) == scanned;
    assert scanned[2..] == Scan(pr, None, rest);
  }

  lemma RestoreGroup(pr: Printer, t: Token, rest: TokenStream)
    requires t.Group?
    ensures Restore(pr, None, [t] + rest) ==
            match Restore(pr, None, t.stream)
            case Some(inner) => Before([Group(t.delimiter, inner)], Restore(pr, None, rest))
            case None => None
  {
    var scanned := [ScannedGroup(pr, t)] + Scan(pr, None, rest);
    assert Scan(pr, None, [t] + rest) == scanned;
    assert scanned[1..] == Scan(pr, None, rest);
  }

  lemma RestorePoundAndGroup(pr: Printer, p: Token, t: Token, rest: TokenStream)
    requires IsPound(p) && t.Group? && !IsFrbBracket(t) && Encoded(ScannedGroup(pr, t)).None?
    ensures Restore(pr, Some(p), [t] + rest) ==
            match Restore(pr, None, t.stream)
            case Some(inner) => Before([p, Group(t.delimiter, inner)], Restore(pr, None, rest))
            case None => None
  {
    var later := [ScannedGroup(pr, t)] + Scan(pr, None, rest);
    assert Scan(pr, Some(p), [t] + rest) == [p] + later;
    assert ([p] + later)[1..] == later && ([p] + later)[1] == ScannedGroup(pr, t);
    assert Restore(pr, Some(p), [t] + rest) == Before([p], DecodeComments(pr, later));
    RestoreGroup(pr, t, rest);
    assert Scan(pr, None, [t] + rest) == later;
    if Restore(pr, None, t.stream).Some? {
      var g := Group(t.delimiter, Restore(pr, None, t.stream).value);
      BeforeTwice([p], [g], Restore(pr, None, rest));
      assert [p] + [g] == [p, g];
    }
  }

  /** A `#` that the scan lets through while it holds one back never meets a group. */
  lemma RestoreOther(pr: Printer, pound: Option<Token>, t: Token, rest: TokenStream)
    requires !t.Group? && (IsPound(t) ==> pound.Some?) && (pound.Some? ==> IsPound(pound.value))
    ensures Restore(pr, pound, [t] + rest) == Before([t], Restore(pr, pound, rest))
  {
    var scanned := [t] + Scan(pr, pound, rest);
    assert Scan(pr, pound, [t] + rest) == scanned;
    assert scanned[1..] == Scan(pr, pound, rest);
    if pound.Some? && rest != [] {
      assert !Scan(pr, pound, rest)[0].Group?;
    }
  }

  // A comment that was there before decodes to less text than it takes.

  lemma {:induction false} TextSizeAppend(a: TokenStream, b: TokenStream)
    ensures TextSize(a + b) == TextSize(a) + TextSize(b)
  {
    if a == [] {
      assert a + b == b;
    } else {
      assert (a + b)[1..] == a[1..] + b;
      TextSizeAppend(a[1..], b);
    }
  }

  lemma {:induction false} UnHexHalves(digits: string)
    requires UnHex(digits).Some?
    ensures |digits| == 2 * |UnHex(digits).value|
  {
    if digits != "" {
      UnHexHalves(digits[2..]);
    }
  }

  lemma EncodedIsLong(t: Token)
    requires Encoded(t).Some?
    ensures PoundFree(t.stream) && |Encoded(t).value| + 13 <= TextSize(t.stream)
  {
    DocumentationHasNoPound(t);
  }

  lemma PayloadSize(pr: Printer, digits: string)
    requires ReadsLittleMore(pr) && Payload(pr, digits).Some?
    ensures TextSize(Payload(pr, digits).value) <= |digits| + 12
  {
    UnHexHalves(digits);
  }

  lemma PayloadIsShorter(pr: Printer, t: Token)
    requires ReadsLittleMore(pr) && t.Group? && Encoded(ScannedGroup(pr, t)).Some?
    ensures var s := Payload(pr, Encoded(ScannedGroup(pr, t)).value);
            s.Some? ==> TextSize(s.value) < TokenSize(t)
  {
    var digits := Encoded(ScannedGroup(pr, t)).value;
    EncodedIsLong(ScannedGroup(pr, t));
    PoundFreeScan(pr, None, t.stream);
    if Payload(pr, digits).Some? {
      PayloadSize(pr, digits);
    }
  }

  lemma BeforeSize(head: TokenStream, rest: Option<TokenStream>)
    ensures var r := Before(head, rest);
            r.Some? ==> rest.Some? && TextSize(r.value) == TextSize(head) + TextSize(rest.value)
  {
    if rest.Some? {
      TextSizeAppend(head, rest.value);
    }
  }

  predicate NoLonger(r: Option<TokenStream>, n: nat) {
    r.Some? ==> TextSize(r.value) <= n
  }

  lemma PlainGroupIsNoLonger(pr: Printer, t: Token, rest: TokenStream)
    requires t.Group? && NoLonger(Restore(pr, None, rest), TextSize(rest))
    requires NoLonger(Restore(pr, None, t.stream), TextSize(t.stream))
    ensures NoLonger(Restore(pr, None, [t] + rest), TokenSize(t) + TextSize(rest))
  {
    RestoreGroup(pr, t, rest);
    var inner := Restore(pr, None, t.stream);
    if inner.Some? {
      var g := Group(t.delimiter, inner.value);
      BeforeSize([g], Restore(pr, None, rest));
      OfTwo(g, g);
    }
  }

  lemma PoundAndGroupIsNoLonger(pr: Printer, p: Token, t: Token, rest: TokenStream)
    requires IsPound(p) && t.Group? && !IsFrbBracket(t) && Encoded(ScannedGroup(pr, t)).None?
    requires NoLonger(Restore(pr, None, rest), TextSize(rest))
    requires NoLonger(Restore(pr, None, t.stream), TextSize(t.stream))
    ensures NoLonger(Restore(pr, Some(p), [t] + rest), TokenSize(t) + TextSize(rest) + 1)
  {
    RestorePoundAndGroup(pr, p, t, rest);
    var inner := Restore(pr, None, t.stream);
    if inner.Some? {
      var g := Group(t.delimiter, inner.value);
      BeforeSize([p, g], Restore(pr, None, rest));
      OfTwo(p, g);
    }
  }

  lemma AttributeIsNoLonger(pr: Printer, p: Token, t: Token, rest: TokenStream)
    requires IsFrbBracket(t) && AttributeReads(pr, t.stream) && NoLonger(Restore(pr, None, rest), TextSize(rest))
    ensures NoLonger(Restore(pr, Some(p), [t] + rest), TokenSize(t) + TextSize(rest) + 1)
  {
    RestoreAttribute(pr, p, t, rest);
    BeforeSize([Punct('#', Alone), t], Restore(pr, None, rest));
    OfTwo(Punct('#', Alone), t);
  }

  lemma CommentIsNoLonger(pr: Printer, p: Token, t: Token, rest: TokenStream)
    requires ReadsLittleMore(pr) && IsPound(p) && t.Group? && !IsFrbBracket(t) && Encoded(ScannedGroup(pr, t)).Some?
    requires NoLonger(Restore(pr, None, rest), TextSize(rest))
    ensures var r := Restore(pr, Some(p), [t] + rest); r.Some? ==> TextSize(r.value) < TokenSize(t) + TextSize(rest)
  {
    RestoreComment(pr, p, t, rest);
    PayloadIsShorter(pr, t);
    var s := Payload(pr, Encoded(ScannedGroup(pr, t)).value);
    if s.Some? {
      BeforeSize(s.value, Restore(pr, None, rest));
    }
  }

  lemma {:induction false} RestoreIsNoLonger(pr: Printer, pound: Option<Token>, ts: TokenStream)
    requires ReadsLittleMore(pr) && ReadsBack(pr, ts) && (pound.Some? ==> IsPound(pound.value))
    ensures NoLonger(Restore(pr, pound, ts), TextSize(ts) + if pound.Some? then 1 else 0)
    decreases ts
  {
    if ts == [] {
      return;
    }
    var t, rest := ts[0], ts[1..];
    assert ts == [t] + rest;
    if pound.None? && IsPound(t) {
      RestoreIsNoLonger(pr, Some(t), rest);
    } else if t.Group? {
      RestoreIsNoLonger(pr, None, rest);
      RestoreIsNoLonger(pr, None, t.stream);
      if pound.None? {
        PlainGroupIsNoLonger(pr, t, rest);
      } else if IsFrbBracket(t) {
        AttributeIsNoLonger(pr, pound.value, t, rest);
      } else if Encoded(ScannedGroup(pr, t)).Some? {
        CommentIsNoLonger(pr, pound.value, t, rest);
      } else {
        PoundAndGroupIsNoLonger(pr, pound.value, t, rest);
      }
    } else {
      RestoreIsNoLonger(pr, pound, rest);
      RestoreOther(pr, pound, t, rest);
      BeforeSize([t], Restore(pr, pound, rest));
      OfTwo(t, t);
    }
  }

  /** A comment that was there before, or that the scan makes by dropping a `#`, never comes back. */
  lemma CommentNeverRestored(pr: Printer, p: Token, t: Token, rest: TokenStream)
    requires ReadsLittleMore(pr) && ReadsBack(pr, rest)
    requires IsPound(p) && t.Group? && !IsFrbBracket(t) && Encoded(ScannedGroup(pr, t)).Some?
    ensures Restore(pr, Some(p), [t] + rest) != Some([p, t] + rest)
  {
    RestoreIsNoLonger(pr, None, rest);
    CommentIsNoLonger(pr, p, t, rest);
    TextSizeAppend([p, t], rest);
    OfTwo(p, t);
  }

  lemma ScannedIntoComment(pr: Printer, t: Token)
    requires t.Group? && Encoded(ScannedGroup(pr, t)).Some? && Tidy(t.stream)
    ensures Encoded(t).Some?
  {
    EncodedIsLong(ScannedGroup(pr, t));
    ConvertIsRewriteExactlyWhenTidy(pr, t.stream);
    PoundFreeWas(pr, t.stream);
  }

  lemma CommentStays(pr: Printer, t: Token)
    requires t.Group? && Encoded(t).Some?
    ensures ScannedGroup(pr, t) == t
  {
    EncodedIsLong(t);
    PoundFreeStays(pr, t.stream);
    ConvertIsRewriteExactlyWhenTidy(pr, t.stream);
  }

  predicate Restored(pr: Printer, ts: TokenStream) {
    Restore(pr, None, ts) == Some(ts)
  }

  // The streams that the proof goes through, taken apart.

  lemma PoundThenGroup(p: Token, t: Token, rest: TokenStream)
    requires IsPound(p) && t.Group?
    ensures Tidy([p, t] + rest) <==>
            Tidy(rest) && if IsFrbBracket(t) then p.spacing == Alone else Tidy(t.stream)
    ensures NoComments([p, t] + rest) <==>
            NoComments(rest) && (IsFrbBracket(t) || (Encoded(t) == None && NoComments(t.stream)))
  {
    var all := [p, t] + rest;
    assert all[1..] == [t] + rest && all[2..] == rest && ([t] + rest)[1..] == rest;
    if IsFrbBracket(t) {
      assert AttrHere(all);
    } else {
      assert !AttrHere(all) && !AttrHere([t] + rest);
      assert Tidy([t] + rest) <==> Tidy(t.stream) && Tidy(rest);
      assert NoComments([t] + rest) <==> NoComments(t.stream) && NoComments(rest);
    }
  }

  lemma PoundThenOther(p: Token, t: Token, rest: TokenStream)
    requires IsPound(p) && !t.Group?
    ensures Tidy([p, t] + rest) <==> t == p && Tidy([t] + rest)
    ensures NoComments([p, t] + rest) <==> NoComments([t] + rest)
  {
    var all := [p, t] + rest;
    assert all[0] == p && all[1] == t && all[1..] == [t] + rest;
  }

  lemma OtherFirst(t: Token, rest: TokenStream)
    requires !IsPound(t)
    ensures Tidy([t] + rest) <==> Tidy(rest) && (t.Group? ==> Tidy(t.stream))
    ensures NoComments([t] + rest) <==> NoComments(rest) && (t.Group? ==> NoComments(t.stream))
  {
    assert ([t] + rest)[1..] == rest;
  }

  lemma LastPound(p: Token)
    requires IsPound(p)
    ensures !Tidy([p])
  {}

  lemma {:induction false} RestoredFromNothing(pr: Printer, ts: TokenStream)
    requires ReadsLittleMore(pr) && ReadsBack(pr, ts)
    ensures Restored(pr, ts) <==> Tidy(ts) && NoComments(ts)
    decreases ts, 0
  {
    if ts != [] {
      var t, rest := ts[0], ts[1..];
      assert [t] + rest == ts;
      if IsPound(t) {
        RestoredHolding(pr, t, rest);
      } else {
        RestoredFromNothing(pr, rest);
        OtherFirst(t, rest);
        if t.Group? {
          RestoredFromNothing(pr, t.stream);
          PlainGroupRestored(pr, t, rest);
        } else {
          RestoreOther(pr, None, t, rest);
          BeforeIs([t], Restore(pr, None, rest), [t], rest);
        }
      }
    }
  }

  lemma PlainGroupRestored(pr: Printer, t: Token, rest: TokenStream)
    requires t.Group?
    ensures Restored(pr, [t] + rest) <==> Restored(pr, t.stream) && Restored(pr, rest)
  {
    RestoreGroup(pr, t, rest);
    var inner := Restore(pr, None, t.stream);
    if inner.Some? {
      var g := Group(t.delimiter, inner.value);
      BeforeIs([g], Restore(pr, None, rest), [t], rest);
      assert [g][0] == g && [t][0] == t;
    }
  }

  lemma {:induction false} RestoredHolding(pr: Printer, p: Token, ts: TokenStream)
    requires ReadsLittleMore(pr) && ReadsBack(pr, ts) && IsPound(p)
    ensures Restore(pr, Some(p), ts) == Some([p] + ts) <==> Tidy([p] + ts) && NoComments([p] + ts)
    decreases ts, 1
  {
    if ts == [] {
      assert [p] + ts == [p];
      LastPound(p);
    } else {
      var t, rest := ts[0], ts[1..];
      assert [p] + ts == [p, t] + rest && ts == [t] + rest;
      if t.Group? {
        RestoredFromNothing(pr, rest);
        RestoredFromNothing(pr, t.stream);
        GroupRestored(pr, p, t, rest);
        PoundThenGroup(p, t, rest);
      } else {
        RestoreOther(pr, Some(p), t, rest);
        BeforeIs([t], Restore(pr, Some(p), rest), [p], ts);
        PoundThenOther(p, t, rest);
        if t == p {
          RestoredHolding(pr, p, rest);
        } else {
          assert [t][0] != [p][0];
        }
      }
    }
  }

  lemma GroupRestored(pr: Printer, p: Token, t: Token, rest: TokenStream)
    requires ReadsLittleMore(pr) && ReadsBackToken(pr, t) && ReadsBack(pr, rest) && IsPound(p) && t.Group?
    requires Restored(pr, t.stream) <==> Tidy(t.stream) && NoComments(t.stream)
    ensures Restore(pr, Some(p), [t] + rest) == Some([p, t] + rest)
            <==> Restored(pr, rest) &&
                 if IsFrbBracket(t) then p.spacing == Alone
                 else Encoded(t).None? && Tidy(t.stream) && NoComments(t.stream)
  {
    if IsFrbBracket(t) {
      AttributeRestored(pr, p, t, rest);
    } else if Encoded(ScannedGroup(pr, t)).Some? {
      CommentNeverRestored(pr, p, t, rest);
      if Tidy(t.stream) {
        ScannedIntoComment(pr, t);
      }
    } else {
      if Encoded(t).Some? {
        CommentStays(pr, t);
      }
      PoundAndGroupRestored(pr, p, t, rest);
    }
  }

  lemma AttributeRestored(pr: Printer, p: Token, t: Token, rest: TokenStream)
    requires IsPound(p) && IsFrbBracket(t) && AttributeReads(pr, t.stream)
    ensures Restore(pr, Some(p), [t] + rest) == Some([p, t] + rest) <==> Restored(pr, rest) && p.spacing == Alone
  {
    var pound := Punct('#', Alone);
    RestoreAttribute(pr, p, t, rest);
    BeforeIs([pound, t], Restore(pr, None, rest), [p, t], rest);
    assert [pound, t][0] == pound && [p, t][0] == p;
  }

  lemma PoundAndGroupRestored(pr: Printer, p: Token, t: Token, rest: TokenStream)
    requires IsPound(p) && t.Group? && !IsFrbBracket(t) && Encoded(ScannedGroup(pr, t)).None?
    ensures Restore(pr, Some(p), [t] + rest) == Some([p, t] + rest) <==> Restored(pr, t.stream) && Restored(pr, rest)
  {
    RestorePoundAndGroup(pr, p, t, rest);
    var inner := Restore(pr, None, t.stream);
    if inner.Some? {
      var g := Group(t.delimiter, inner.value);
      BeforeIs([p, g], Restore(pr, None, rest), [p, t], rest);
      assert [p, g][1] == g && [p, t][1] == t;
    }
  }
}
