/** A way to print tokens and read them back that meets what the decoding theorem asks of one. */
module AttrPrinting {
  import opened Wrappers
  import opened SseFormat
  import opened AttrEncoder
  import opened AttrDecoding

  /** Each character behind a one, and a zero at the end. */
  function Letters(s: string): seq<u8> {
    if s == "" then [0] else [1] + Bytes(s[0] as nat, 4) + Letters(s[1..])
  }

  function DelimiterByte(d: Delimiter): u8 {
    match d case Parenthesis => 0 case Brace => 1 case Bracket => 2 case NoDelimiter => 3
  }

  /** Every token behind a one, and a zero at the end. */
  function Written(ts: TokenStream): seq<u8> {
    if ts == [] then [0] else [1] + WrittenToken(ts[0]) + Written(ts[1..])
  }

  function WrittenToken(t: Token): seq<u8> {
    match t
    case Punct(ch, spacing) => [0, if spacing == Alone then 0 else 1] + Bytes(ch as nat, 4)
    case Ident(name) => [1] + Letters(name)
    case Literal(text) => [2] + Letters(text)
    case Group(d, stream) => [3, DelimiterByte(d)] + Written(stream)
  }

  /** The same text before x and y starts with the same parts. */
  lemma SameHead(a: seq<u8>, x: seq<u8>, b: seq<u8>, y: seq<u8>)
    requires |a| == |b| && a + x == b + y
    ensures a == b && x == y
  {
    assert (a + x)[..|a|] == a && (a + x)[|a|..] == x && (b + y)[..|b|] == b && (b + y)[|b|..] == y;
  }

  lemma SameCharacter(c: char, d: char)
    requires Bytes(c as nat, 4) == Bytes(d as nat, 4)
    ensures c == d
  {
    Powers();
    NumberOfBytes(c as nat, 4);
    NumberOfBytes(d as nat, 4);
  }

  lemma {:induction false} LettersTellApart(s: string, x: seq<u8>, t: string, y: seq<u8>)
    requires Letters(s) + x == Letters(t) + y
    ensures s == t && x == y
  {
    assert Letters(s)[0] == (Letters(s) + x)[0] == (Letters(t) + y)[0] == Letters(t)[0];
    if s == "" {
      SameHead([0], x, [0], y);
    } else {
      var a, b := [1] + Bytes(s[0] as nat, 4), [1] + Bytes(t[0] as nat, 4);
      assert a + (Letters(s[1..]) + x) == Letters(s) + x && b + (Letters(t[1..]) + y) == Letters(t) + y;
      SameHead(a, Letters(s[1..]) + x, b, Letters(t[1..]) + y);
      SameHead([1], Bytes(s[0] as nat, 4), [1], Bytes(t[0] as nat, 4));
      SameCharacter(s[0], t[0]);
      LettersTellApart(s[1..], x, t[1..], y);
      assert s == [s[0]] + s[1..] && t == [t[0]] + t[1..];
    }
  }

  /** A name or a literal, behind its tag. */
  lemma TaggedLetters(tag: u8, s: string, x: seq<u8>, t: string, y: seq<u8>)
    requires ([tag] + Letters(s)) + x == ([tag] + Letters(t)) + y
    ensures s == t && x == y
  {
    InTwoParts([tag], Letters(s), x);
    InTwoParts([tag], Letters(t), y);
    SameHead([tag], Letters(s) + x, [tag], Letters(t) + y);
    LettersTellApart(s, x, t, y);
  }

  lemma SamePunct(a: Token, x: seq<u8>, b: Token, y: seq<u8>)
    requires a.Punct? && b.Punct? && WrittenToken(a) + x == WrittenToken(b) + y
    ensures a == b && x == y
  {
    SameHead(WrittenToken(a), x, WrittenToken(b), y);
    var m, n := [0, if a.spacing == Alone then 0 else 1], [0, if b.spacing == Alone then 0 else 1];
    SameHead(m, Bytes(a.ch as nat, 4), n, Bytes(b.ch as nat, 4));
    assert m[1] == n[1];
    SameCharacter(a.ch, b.ch);
  }

  function Tag(t: Token): u8 {
    match t case Punct(_, _) => 0 case Ident(_) => 1 case Literal(_) => 2 case Group(_, _) => 3
  }

  lemma StartsWithTag(t: Token, x: seq<u8>)
    ensures (WrittenToken(t) + x)[0] == Tag(t)
  {}

  /** A group is its tag, its delimiter, and its tokens. */
  lemma SameGroupStart(a: Token, x: seq<u8>, b: Token, y: seq<u8>)
    requires a.Group? && b.Group? && WrittenToken(a) + x == WrittenToken(b) + y
    ensures a.delimiter == b.delimiter && Written(a.stream) + x == Written(b.stream) + y
  {
    var m, n := [3, DelimiterByte(a.delimiter)], [3, DelimiterByte(b.delimiter)];
    InTwoParts(m, Written(a.stream), x);
    InTwoParts(n, Written(b.stream), y);
    SameHead(m, Written(a.stream) + x, n, Written(b.stream) + y);
    assert m[1] == n[1];
  }

  lemma InTwoParts(a: seq<u8>, b: seq<u8>, c: seq<u8>)
    ensures a + b + c == a + (b + c)
  {}

  lemma {:induction false} TokenTellsApart(a: Token, x: seq<u8>, b: Token, y: seq<u8>)
    requires WrittenToken(a) + x == WrittenToken(b) + y
    ensures a == b && x == y
    decreases a, 0
  {
    StartsWithTag(a, x);
    StartsWithTag(b, y);
    match a {
      case Punct(_, _) => SamePunct(a, x, b, y);
      case Ident(name) => TaggedLetters(1, name, x, b.name, y);
      case Literal(text) => TaggedLetters(2, text, x, b.text, y);
      case Group(_, stream) =>
        SameGroupStart(a, x, b, y);
        WrittenTellsApart(stream, x, b.stream, y);
    }
  }

  lemma InThreeParts(a: seq<u8>, b: seq<u8>, c: seq<u8>, d: seq<u8>)
    ensures a + b + c + d == a + (b + (c + d))
  {}

  lemma FirstByte(ts: TokenStream, x: seq<u8>)
    ensures (Written(ts) + x)[0] == if ts == [] then 0 else 1
  {}

  lemma {:induction false} WrittenTellsApart(ts: TokenStream, x: seq<u8>, us: TokenStream, y: seq<u8>)
    requires Written(ts) + x == Written(us) + y
    ensures ts == us && x == y
    decreases ts, 1
  {
    FirstByte(ts, x);
    FirstByte(us, y);
    if ts == [] {
      SameHead([0], x, [0], y);
    } else {
      var t, u, later, later' := ts[0], us[0], Written(ts[1..]), Written(us[1..]);
      InThreeParts([1], WrittenToken(t), later, x);
      InThreeParts([1], WrittenToken(u), later', y);
      SameHead([1], WrittenToken(t) + (later + x), [1], WrittenToken(u) + (later' + y));
      TokenTellsApart(t, later + x, u, later' + y);
      WrittenTellsApart(ts[1..], x, us[1..], y);
      assert ts == [t] + ts[1..] && us == [u] + us[1..];
    }
  }

  lemma {:induction false} LettersAreLong(s: string)
    ensures |s| <= |Letters(s)|
  {
    if s != "" {
      LettersAreLong(s[1..]);
    }
  }

  lemma {:induction false} WrittenIsLong(ts: TokenStream)
    ensures TextSize(ts) <= |Written(ts)|
  {
    if ts != [] {
      WrittenIsLong(ts[1..]);
      match ts[0] {
        case Punct(_, _) =>
        case Ident(name) => LettersAreLong(name);
        case Literal(text) => LettersAreLong(text);
        case Group(_, stream) => WrittenIsLong(stream);
      }
    }
  }

  function InBrackets(s: TokenStream): seq<u8> {
    ['#' as int, '[' as int] + Written(s) + [']' as int]
  }

  lemma InBracketsTellsApart(s: TokenStream, t: TokenStream)
    requires InBrackets(s) == InBrackets(t)
    ensures s == t
  {
    var open, close: seq<u8> := ['#' as int, '[' as int], [']' as int];
    assert InBrackets(s) == open + (Written(s) + close) && InBrackets(t) == open + (Written(t) + close);
    SameHead(open, Written(s) + close, open, Written(t) + close);
    WrittenTellsApart(s, close, t, close);
  }

  /** What the decoding theorem assumes of printing and reading can be had, for every stream at once. */
  lemma SuchPrintersExist() returns (pr: Printer)
    ensures ReadsLittleMore(pr) && forall ts: TokenStream :: ReadsBack(pr, ts)
  {
    pr := Printer(
      Written,
      (bytes: seq<u8>) =>
        if exists s: TokenStream :: InBrackets(s) == bytes then
          var s: TokenStream :| InBrackets(s) == bytes;
          Some([Punct('#', Alone), Group(Bracket, s)])
        else None);
    forall s: TokenStream ensures AttributeReads(pr, s) {
      assert Attribute(pr, s) == InBrackets(s);
      forall t: TokenStream | InBrackets(t) == InBrackets(s) ensures t == s {
        InBracketsTellsApart(t, s);
      }
    }
    forall bytes: seq<u8> | pr.parse(bytes).Some?
      ensures TextSize(pr.parse(bytes).value) <= 2 * |bytes| + 12
    {
      var s := pr.parse(bytes).value[1].stream;
      WrittenIsLong(s);
      OfTwo(Punct('#', Alone), Group(Bracket, s));
    }
    forall ts: TokenStream ensures ReadsBack(pr, ts) {
      AllReadBack(pr, ts);
    }
  }

  lemma {:induction false} AllReadBack(pr: Printer, ts: TokenStream)
    requires forall s: TokenStream :: AttributeReads(pr, s)
    ensures ReadsBack(pr, ts)
  {
    if ts != [] {
      AllReadBack(pr, ts[1..]);
      if ts[0].Group? {
        AllReadBack(pr, ts[0].stream);
      }
    }
  }
}
