/** The macro that hides `#[frb..]` attributes inside doc comments. */
module AttrEncoder {
  import opened Wrappers
  import opened SseFormat

  // ----- Token trees -----

  datatype Delimiter = Parenthesis | Brace | Bracket | NoDelimiter
  datatype Spacing = Alone | Joint

  datatype Token =
    | Punct(ch: char, spacing: Spacing)
    | Ident(name: string)
    | Literal(text: string)
    | Group(delimiter: Delimiter, stream: seq<Token>)

  type TokenStream = seq<Token>

  /** Printing tokens to source text, and reading source text; None is a text that cannot be read. */
  datatype Printer = Printer(print_: TokenStream -> seq<u8>, parse: seq<u8> -> Option<TokenStream>)

  function Attribute(pr: Printer, s: TokenStream): seq<u8> {
    ['#' as int, '[' as int] + pr.print_(s) + [']' as int]
  }

  predicate IsPound(t: Token) {
    t.Punct? && t.ch == '#'
  }

  predicate StartsWithFrb(s: TokenStream) {
    s != [] && s[0] == Ident("frb")
  }

  predicate IsFrbBracket(t: Token) {
    t.Group? && t.delimiter == Bracket && StartsWithFrb(t.stream)
  }

  // ----- Hexadecimal text -----

  function HexDigit(n: nat): (c: char)
    requires n < 16
  {
    if n < 10 then '0' + n as char else 'a' + (n - 10) as char
  }

  function DigitValue(c: char): (n: Option<nat>)
    ensures n.Some? ==> n.value < 16
  {
    if '0' <= c <= '9' then Some((c - '0') as nat)
    else if 'a' <= c <= 'f' then Some((c - 'a') as nat + 10)
    else if 'A' <= c <= 'F' then Some((c - 'A') as nat + 10)
    else None
  }

  function Hex(bytes: seq<u8>): string {
    if bytes == [] then "" else [HexDigit(bytes[0] / 16), HexDigit(bytes[0] % 16)] + Hex(bytes[1..])
  }

  function UnHex(s: string): Option<seq<u8>> {
    if s == "" then Some([])
    else if |s| == 1 then None
    else
      match (DigitValue(s[0]), DigitValue(s[1]), UnHex(s[2..]))
      case (Some(high), Some(low), Some(rest)) => Some([16 * high + low] + rest)
      case _ => None
  }

  lemma {:induction false} HexReadBack(bytes: seq<u8>)
    ensures UnHex(Hex(bytes)) == Some(bytes)
  {
    if bytes != [] {
      var b := bytes[0];
      HexReadBack(bytes[1..]);
      assert Hex(bytes)[..2] == [HexDigit(b / 16), HexDigit(b % 16)];
      assert [16 * (b / 16) + b % 16] + bytes[1..] == bytes;
      assert Hex(bytes)[2..] == Hex(bytes[1..]);
      DigitReadBack(b / 16);
      DigitReadBack(b % 16);
    }
  }

  /** The digits are those that `hex::encode` writes: two for each byte, in lower case. */
  lemma {:induction false} HexIsLowerCase(bytes: seq<u8>)
    ensures |Hex(bytes)| == 2 * |bytes|
    ensures forall i :: 0 <= i < |Hex(bytes)| ==> '0' <= Hex(bytes)[i] <= '9' || 'a' <= Hex(bytes)[i] <= 'f'
  {
    if bytes != [] {
      HexIsLowerCase(bytes[1..]);
      var rest := Hex(bytes[1..]);
      assert forall i :: 2 <= i < |Hex(bytes)| ==> Hex(bytes)[i] == rest[i - 2];
    }
  }

  lemma DigitReadBack(n: nat)
    requires n < 16
    ensures DigitValue(HexDigit(n)) == Some(n)
  {
  }

  // ----- Encoded comments -----

  const PREFIX := "frb_encoded("

  /** The bracket of the `cfg_attr` that carries the text of the attribute `#[s]`. */
  function CommentGroup(pr: Printer, s: TokenStream): Token {
    Group(Bracket, [
            Ident("cfg_attr"),
            Group(Parenthesis, [
                    Ident("frb_expand"), Punct(',', Alone), Ident("doc"), Punct('=', Alone),
                    Literal(PREFIX + Hex(Attribute(pr, s)) + ")")])])
  }

  function CreateFrbEncodedComment(pr: Printer, s: TokenStream): TokenStream {
    [Punct('#', Alone), CommentGroup(pr, s)]
  }

  // ----- The conversion, as the macro does it -----

  function Pending(pound: Option<Token>): TokenStream {
    match pound
    case Some(t) => [t]
    case None => []
  }

  /** The scan from any point on, with the `#` that it holds back. */
  function Scan(pr: Printer, pound: Option<Token>, ts: TokenStream): TokenStream
    decreases ts
  {
    if ts == [] then []
    else
      var t := ts[0];
      if pound.None? && IsPound(t) then Scan(pr, Some(t), ts[1..])
      else if pound.Some? && IsFrbBracket(t) then
        CreateFrbEncodedComment(pr, t.stream) + Scan(pr, None, ts[1..])
      else if t.Group? then
        Pending(pound) + [Group(t.delimiter, Scan(pr, None, t.stream))] + Scan(pr, None, ts[1..])
      else [t] + Scan(pr, pound, ts[1..])
  }

  lemma InParts(a: TokenStream, b: TokenStream, c: TokenStream)
    ensures a + (b + c) == a + b + c
  {}

  /** One token of the scan. */
  lemma ScanToken(pr: Printer, pound: Option<Token>, t: Token, rest: TokenStream)
    ensures Scan(pr, pound, [t] + rest) ==
            if pound.None? && IsPound(t) then Scan(pr, Some(t), rest)
            else if pound.Some? && IsFrbBracket(t) then CreateFrbEncodedComment(pr, t.stream) + Scan(pr, None, rest)
            else if t.Group? then Pending(pound) + [Group(t.delimiter, Scan(pr, None, t.stream))] + Scan(pr, None, rest)
            else [t] + Scan(pr, pound, rest)
  {
    assert ([t] + rest)[1..] == rest;
  }

  /** `convert_frb_attr_to_encoded_form` */
  method ConvertFrbAttrToEncodedForm(pr: Printer, item: TokenStream) returns (out: TokenStream)
    ensures out == Scan(pr, None, item)
    decreases item
  {
    out := [];
    var pound: Option<Token> := None;
    for i := 0 to |item|
      invariant out + Scan(pr, pound, item[i..]) == Scan(pr, None, item)
    {
      var tok := item[i];
      ghost var before, held := out, pound;
      ghost var rest := item[i + 1..];
      assert item[i..] == [tok] + rest;
      ScanToken(pr, pound, tok, rest);
      ghost var put: TokenStream;
      if pound.None? && IsPound(tok) {
        pound := Some(tok);
        put := [];
      } else if pound.Some? && IsFrbBracket(tok) {
        pound := None;
        put := CreateFrbEncodedComment(pr, tok.stream);
        out := out + CreateFrbEncodedComment(pr, tok.stream);
      } else if tok.Group? {
        var inner := ConvertFrbAttrToEncodedForm(pr, tok.stream);
        put := Pending(pound) + [Group(tok.delimiter, inner)];
        out := out + (Pending(pound) + [Group(tok.delimiter, inner)]);
        pound := None;
      } else {
        put := [tok];
        out := out + [tok];
      }
      assert Scan(pr, held, [tok] + rest) == put + Scan(pr, pound, rest) && out == before + put;
      InParts(before, put, Scan(pr, pound, rest));
    }
  }

  // ----- The conversion, as it is meant -----

  predicate AttrHere(ts: TokenStream) {
    2 <= |ts| && IsPound(ts[0]) && IsFrbBracket(ts[1])
  }

  /** The bracket of each frb attribute becomes its encoded comment; everything else stays where it is. */
  function Rewrite(pr: Printer, ts: TokenStream): TokenStream {
    if ts == [] then []
    else if AttrHere(ts) then [ts[0], CommentGroup(pr, ts[1].stream)] + Rewrite(pr, ts[2..])
    else if ts[0].Group? then [Group(ts[0].delimiter, Rewrite(pr, ts[0].stream))] + Rewrite(pr, ts[1..])
    else [ts[0]] + Rewrite(pr, ts[1..])
  }

  predicate PoundHeadOk(ts: TokenStream)
    requires ts != []
  {
    IsPound(ts[0]) ==> 1 < |ts| && (ts[1].Group? || ts[1] == ts[0])
  }

  /** At every nesting level outside frb attributes, a `#` is followed by a group or by an equal `#`;
      the `#` of an frb attribute has the spacing that reading source text gives it. */
  predicate Tidy(ts: TokenStream) {
    ts == [] ||
    if AttrHere(ts) then ts[0].spacing == Alone && Tidy(ts[2..])
    else PoundHeadOk(ts) && (ts[0].Group? ==> Tidy(ts[0].stream)) && Tidy(ts[1..])
  }

  /** The scan is the intended rewriting exactly on tidy streams. */
  lemma ConvertIsRewriteExactlyWhenTidy(pr: Printer, ts: TokenStream)
    ensures Scan(pr, None, ts) == Rewrite(pr, ts) <==> Tidy(ts)
  {
    ScanFromNothing(pr, ts);
  }

  lemma SameParts(a: TokenStream, x: TokenStream, b: TokenStream, y: TokenStream)
    requires |a| == |b|
    ensures a + x == b + y <==> a == b && x == y
  {
    assert (a + x)[..|a|] == a && (a + x)[|a|..] == x;
    assert (b + y)[..|b|] == b && (b + y)[|b|..] == y;
  }

  lemma {:induction false} ScanFromNothing(pr: Printer, ts: TokenStream)
    ensures Scan(pr, None, ts) == Rewrite(pr, ts) <==> Tidy(ts)
    decreases ts, 0
  {
    if ts != [] {
      if IsPound(ts[0]) {
        ScanHolding(pr, ts[0], ts[1..]);
        assert [ts[0]] + ts[1..] == ts;
      } else {
        ScanFromNothing(pr, ts[1..]);
        if ts[0].Group? {
          var t := ts[0];
          ScanFromNothing(pr, t.stream);
          SameParts([Group(t.delimiter, Scan(pr, None, t.stream))], Scan(pr, None, ts[1..]),
                    [Group(t.delimiter, Rewrite(pr, t.stream))], Rewrite(pr, ts[1..]));
        } else {
          SameParts([ts[0]], Scan(pr, None, ts[1..]), [ts[0]], Rewrite(pr, ts[1..]));
        }
      }
    }
  }

  /** The same with a `#` held back, which the rewriting has not passed yet. */
  lemma {:induction false} ScanHolding(pr: Printer, p: Token, ts: TokenStream)
    requires IsPound(p)
    ensures Scan(pr, Some(p), ts) == Rewrite(pr, [p] + ts) <==> Tidy([p] + ts)
    decreases ts, 1
  {
    var all := [p] + ts;
    assert all[0] == p && all[1..] == ts;
    if ts == [] {
    } else if IsFrbBracket(ts[0]) {
      assert all[2..] == ts[1..];
      ScanFromNothing(pr, ts[1..]);
      var comment := CreateFrbEncodedComment(pr, ts[0].stream);
      SameParts(comment, Scan(pr, None, ts[1..]), [p, comment[1]], Rewrite(pr, ts[1..]));
      assert comment[0] == Punct('#', Alone) && [p, comment[1]][0] == p;
    } else if ts[0].Group? {
      var t := ts[0];
      ScanFromNothing(pr, ts[1..]);
      ScanFromNothing(pr, t.stream);
      var scanned, rewritten := Group(t.delimiter, Scan(pr, None, t.stream)), Group(t.delimiter, Rewrite(pr, t.stream));
      SameParts([p] + [scanned], Scan(pr, None, ts[1..]), [p] + [rewritten], Rewrite(pr, ts[1..]));
      assert ([p] + [scanned])[1] == scanned && ([p] + [rewritten])[1] == rewritten;
      assert Rewrite(pr, all) == [p] + [rewritten] + Rewrite(pr, ts[1..]);
    } else {
      SameParts([ts[0]], Scan(pr, Some(p), ts[1..]), [p], Rewrite(pr, ts));
      if ts[0] == p {
        ScanHolding(pr, p, ts[1..]);
        assert [p] + ts[1..] == ts;
      }
    }
  }

  // ----- Streams that are not tidy -----

  /** An inner attribute such as `#![x]` comes out with its two marks exchanged, a last `#` is lost, and
      converting a second time can lose another one, or find an attribute that was not there. */
  lemma UntidyStreamsChange(pr: Printer)
    ensures var pound, bang, a, x := Punct('#', Alone), Punct('!', Alone), Ident("a"), Group(Bracket, [Ident("x")]);
            && Scan(pr, None, [pound, bang, x]) == [bang, pound, x]
            && Scan(pr, None, [a, pound]) == [a]
            && Scan(pr, None, [pound, pound, a]) == [pound, a]
            && Scan(pr, None, [pound, a]) == [a]
            && Scan(pr, None, [pound, Group(Bracket, [pound, Ident("frb")])]) == [pound, Group(Bracket, [Ident("frb")])]
  {
    var pound, bang, a, x := Punct('#', Alone), Punct('!', Alone), Ident("a"), Group(Bracket, [Ident("x")]);
    assert x.stream[1..] == [] && Scan(pr, None, x.stream) == x.stream;
    assert [x][1..] == [] && Scan(pr, Some(pound), [x]) == [pound, x];
    assert [bang, x][1..] == [x] && Scan(pr, Some(pound), [bang, x]) == [bang, pound, x];
    assert [pound, bang, x][1..] == [bang, x];
    assert [pound][1..] == [] && Scan(pr, None, [pound]) == [];
    assert [a, pound][1..] == [pound];
    assert [a][1..] == [] && Scan(pr, Some(pound), [a]) == [a];
    assert [pound, a][1..] == [a] && Scan(pr, Some(pound), [pound, a]) == [pound, a];
    assert [pound, pound, a][1..] == [pound, a];
    NewAttribute(pr);
  }

  lemma NewAttribute(pr: Printer)
    ensures var pound := Punct('#', Alone);
            Scan(pr, None, [pound, Group(Bracket, [pound, Ident("frb")])]) == [pound, Group(Bracket, [Ident("frb")])]
  {
    var pound, frb := Punct('#', Alone), Ident("frb");
    var g := Group(Bracket, [pound, frb]);
    assert g.stream[1..] == [frb] && [frb][1..] == [] && Scan(pr, Some(pound), [frb]) == [frb];
    assert Scan(pr, None, g.stream) == [frb];
    assert [pound, g][1..] == [g] && [g][1..] == [];
    assert Scan(pr, Some(pound), [g]) == [pound, Group(Bracket, [frb])];
  }
}
