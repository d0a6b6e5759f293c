/** Decoding what was encoded gives back the value, exactly when every length fits; encodings are
    uniquely parseable; the final cursor check accepts exactly the right length. */
module SseRoundTrip {
  import opened Wrappers
  import opened SseFormat

  /** `bytes` stand in s from pos on. */
  ghost predicate At(s: seq<u8>, pos: nat, bytes: seq<u8>) {
    pos + |bytes| <= |s| && s[pos..pos + |bytes|] == bytes
  }

  lemma AtSplit(s: seq<u8>, pos: nat, a: seq<u8>, b: seq<u8>)
    requires At(s, pos, a + b)
    ensures At(s, pos, a) && At(s, pos + |a|, b)
  {
    var all := s[pos..pos + |a + b|];
    assert s[pos..pos + |a|] == all[..|a|] == a;
    assert s[pos + |a|..pos + |a| + |b|] == all[|a|..] == b;
  }

  // ----- Numbers -----

  lemma ReadBack(s: seq<u8>, pos: nat, n: nat, k: nat)
    requires At(s, pos, Bytes(n, k)) && n < Pow256(k)
    ensures ReadNumber(s, pos, k) == Ok(n, pos + k)
  {
    NumberOfBytes(n, k);
  }

  lemma ReadBackI32(s: seq<u8>, pos: nat, i: int)
    requires At(s, pos, I32Bytes(i)) && -0x8000_0000 <= i <= I32_MAX
    ensures ReadI32(s, pos) == Ok(i, pos + 4)
  {
    Powers();
    ReadBack(s, pos, i % U32_MODULUS, 4);
  }

  /** Whatever the four bytes, the number read is one an i32 can hold. */
  lemma ReadI32IsI32(s: seq<u8>, pos: nat)
    ensures ReadI32(s, pos).Ok? ==> -0x8000_0000 <= ReadI32(s, pos).value <= I32_MAX
  {
    if pos + 4 <= |s| {
      NumberIsBounded(s[pos..pos + 4]);
      Powers();
    }
  }

  /** A length or a tag, and what stands behind it. */
  lemma LengthReadBack(s: seq<u8>, pos: nat, n: nat, data: seq<u8>)
    requires At(s, pos, I32Bytes(n) + data) && n <= I32_MAX
    ensures ReadI32(s, pos) == Ok(n, pos + 4) && At(s, pos + 4, data)
  {
    AtSplit(s, pos, I32Bytes(n), data);
    ReadBackI32(s, pos, n);
  }

  // ----- Round trip -----

  lemma RoundTripString(sc: Schema, bytes: seq<u8>, s: seq<u8>, pos: nat)
    requires sc.utf8(bytes) && |bytes| <= I32_MAX && At(s, pos, I32Bytes(|bytes|) + bytes)
    ensures Decode(sc, TString, s, pos) == Ok(VString(bytes), pos + 4 + |bytes|)
  {
    LengthReadBack(s, pos, |bytes|, bytes);
  }

  lemma {:induction false} RoundTrip(sc: Schema, v: Val, t: Ty, s: seq<u8>, pos: nat)
    requires HasType(sc, v, t) && LengthsFit(v) && At(s, pos, Encode(v))
    ensures Decode(sc, t, s, pos) == Ok(v, pos + |Encode(v)|)
    decreases v, 0
  {
    match v {
      case VUnit =>
      case VBool(_) =>
      case VU8(_) =>
      case VI32(i) => ReadBackI32(s, pos, i);
      case VUsize(n) =>
        Powers();
        ReadBack(s, pos, n, 8);
      case VString(bytes) => RoundTripString(sc, bytes, s, pos);
      case VVec(items) =>
        LengthReadBack(s, pos, |items|, EncodeAll(items));
        RoundTripMany(sc, items, |items|, t.elem, s, pos + 4);
      case VNone =>
      case VSome(x) =>
        AtSplit(s, pos, [1], Encode(x));
        RoundTrip(sc, x, t.elem, s, pos + 1);
      case VStruct(fs) => RoundTripFields(sc, fs, if t.TTuple? then t.parts else sc.structs[t.name], s, pos);
      case VEnum(k, fs) =>
        LengthReadBack(s, pos, k, EncodeAll(fs));
        RoundTripFields(sc, fs, sc.enums[t.name][k], s, pos + 4);
    }
  }

  /** The first value of several, and the others behind it. */
  lemma FirstAndRest(s: seq<u8>, pos: nat, vs: seq<Val>)
    requires vs != [] && At(s, pos, EncodeAll(vs))
    ensures At(s, pos, Encode(vs[0])) && At(s, pos + |Encode(vs[0])|, EncodeAll(vs[1..]))
    ensures |EncodeAll(vs)| == |Encode(vs[0])| + |EncodeAll(vs[1..])|
  {
    AtSplit(s, pos, Encode(vs[0]), EncodeAll(vs[1..]));
  }

  lemma OneMoreField(sc: Schema, ts: seq<Ty>, s: seq<u8>, pos: nat, p: nat, vs: seq<Val>, end: nat)
    requires ts != [] && vs != [] && pos <= |s| && p <= |s|
    requires Decode(sc, ts[0], s, pos) == Ok(vs[0], p) && DecodeFields(sc, ts[1..], s, p) == Ok(vs[1..], end)
    ensures DecodeFields(sc, ts, s, pos) == Ok(vs, end)
  {
    assert [vs[0]] + vs[1..] == vs;
  }

  /** Elements are read like fields of the same type. */
  lemma {:induction false} ManyIsFields(sc: Schema, t: Ty, n: nat, s: seq<u8>, pos: nat)
    requires pos <= |s|
    ensures DecodeMany(sc, t, n, s, pos) == DecodeFields(sc, seq(n, _ => t), s, pos)
    decreases n
  {
    if n > 0 {
      var ts := seq(n, _ => t);
      assert ts[0] == t && ts[1..] == seq(n - 1, _ => t);
      var first := Decode(sc, t, s, pos);
      if first.Ok? {
        ManyIsFields(sc, t, n - 1, s, first.pos);
      }
    }
  }

  lemma {:induction false} RoundTripMany(sc: Schema, vs: seq<Val>, n: nat, t: Ty, s: seq<u8>, pos: nat)
    requires n == |vs| && AllHaveType(sc, vs, t) && AllLengthsFit(vs) && At(s, pos, EncodeAll(vs))
    ensures DecodeMany(sc, t, n, s, pos) == Ok(vs, pos + |EncodeAll(vs)|)
    decreases vs, 2
  {
    ManyIsFields(sc, t, n, s, pos);
    RoundTripFields(sc, vs, seq(n, _ => t), s, pos);
  }

  /** Arguments, fields: decoding the types in order gives back the values in order. */
  lemma {:induction false} RoundTripFields(sc: Schema, vs: seq<Val>, ts: seq<Ty>, s: seq<u8>, pos: nat)
    requires HaveTypes(sc, vs, ts) && AllLengthsFit(vs) && At(s, pos, EncodeAll(vs))
    ensures DecodeFields(sc, ts, s, pos) == Ok(vs, pos + |EncodeAll(vs)|)
    decreases vs, 1
  {
    if vs != [] {
      var p := pos + |Encode(vs[0])|;
      FirstAndRest(s, pos, vs);
      RoundTrip(sc, vs[0], ts[0], s, pos);
      RoundTripFields(sc, vs[1..], ts[1..], s, p);
      OneMoreField(sc, ts, s, pos, p, vs, pos + |EncodeAll(vs)|);
    }
  }

  // ----- What decoding can produce at all -----

  /** Every decoded value has its type, and lengths an i32 can hold. */
  lemma {:induction false} DecodedIsGood(sc: Schema, t: Ty, s: seq<u8>, pos: nat)
    requires pos <= |s| && Decode(sc, t, s, pos).Ok?
    ensures HasType(sc, Decode(sc, t, s, pos).value, t) && LengthsFit(Decode(sc, t, s, pos).value)
    decreases |s| - pos, Rank(sc.rank, t), Size(t), 0
  {
    match t {
      case TUnit =>
      case TBool =>
      case TU8 =>
      case TI32 => ReadI32IsI32(s, pos);
      case TUsize =>
        NumberIsBounded(s[pos..pos + 8]);
        Powers();
      case TString => ReadI32IsI32(s, pos);
      case TVec(e) =>
        ReadI32IsI32(s, pos);
        var len := ReadI32(s, pos).value;
        if len >= 0 {
          DecodedManyAreGood(sc, e, len, s, pos + 4);
        }
      case TOption(e) =>
        if s[pos] != 0 {
          DecodedIsGood(sc, e, s, pos + 1);
        }
      case TTuple(ts) => DecodedFieldsAreGood(sc, ts, s, pos);
      case TStruct(name) => DecodedFieldsAreGood(sc, sc.structs[name], s, pos);
      case TEnum(name) =>
        ReadI32IsI32(s, pos);
        DecodedFieldsAreGood(sc, sc.enums[name][ReadI32(s, pos).value], s, pos + 4);
    }
  }

  lemma {:induction false} DecodedManyAreGood(sc: Schema, t: Ty, n: nat, s: seq<u8>, pos: nat)
    requires pos <= |s| && DecodeMany(sc, t, n, s, pos).Ok?
    ensures var vs := DecodeMany(sc, t, n, s, pos).value;
            AllHaveType(sc, vs, t) && AllLengthsFit(vs)
    decreases |s| - pos, Rank(sc.rank, t), Size(t), n + 1
  {
    if n > 0 {
      DecodedIsGood(sc, t, s, pos);
      DecodedManyAreGood(sc, t, n - 1, s, Decode(sc, t, s, pos).pos);
    }
  }

  lemma {:induction false} DecodedFieldsAreGood(sc: Schema, ts: seq<Ty>, s: seq<u8>, pos: nat)
    requires pos <= |s| && DecodeFields(sc, ts, s, pos).Ok?
    ensures HaveTypes(sc, DecodeFields(sc, ts, s, pos).value, ts) && AllLengthsFit(DecodeFields(sc, ts, s, pos).value)
    decreases |s| - pos, Ranks(sc.rank, ts), Sizes(ts), 0
  {
    if ts != [] {
      DecodedIsGood(sc, ts[0], s, pos);
      DecodedFieldsAreGood(sc, ts[1..], s, Decode(sc, ts[0], s, pos).pos);
    }
  }

  /** The round trip holds, followed by any bytes, exactly for values whose lengths all fit an i32. */
  lemma RoundTripExactlyWhenLengthsFit(sc: Schema, v: Val, t: Ty, rest: seq<u8>)
    requires HasType(sc, v, t)
    ensures Decode(sc, t, Encode(v) + rest, 0) == Ok(v, |Encode(v)|) <==> LengthsFit(v)
  {
    var s := Encode(v) + rest;
    if LengthsFit(v) {
      assert s[0..|Encode(v)|] == Encode(v);
      RoundTrip(sc, v, t, s, 0);
    } else if Decode(sc, t, s, 0) == Ok(v, |Encode(v)|) {
      DecodedIsGood(sc, t, s, 0);
    }
  }

  // ----- Unique parsing -----

  /** No encoding of an argument list is a prefix of another one of the same types. */
  lemma PrefixFree(sc: Schema, vs: seq<Val>, ws: seq<Val>, ts: seq<Ty>)
    requires HaveTypes(sc, vs, ts) && HaveTypes(sc, ws, ts) && AllLengthsFit(vs) && AllLengthsFit(ws)
    requires EncodeAll(vs) <= EncodeAll(ws)
    ensures vs == ws
  {
    var s := EncodeAll(ws);
    assert s[0..|s|] == s;
    assert s[0..|EncodeAll(vs)|] == EncodeAll(vs);
    RoundTripFields(sc, vs, ts, s, 0);
    RoundTripFields(sc, ws, ts, s, 0);
  }

  // ----- Messages -----

  /** `self.data_len as u64`: a negative length turns into a huge one. */
  function AsU64(dataLen: int): int {
    if dataLen < 0 then dataLen + 0x1_0000_0000_0000_0000 else dataLen
  }

  /** A wire function's arguments: decoded in order, then `end()` compares the cursor. */
  function ReceiveArgs(sc: Schema, ts: seq<Ty>, vec: seq<u8>, dataLen: int): Option<seq<Val>> {
    match DecodeFields(sc, ts, vec, 0)
    case Ok(vs, pos) => if AsU64(dataLen) == pos then Some(vs) else None
    case Panic(_) => None
  }

  /** The arguments sent are the arguments received, and the cursor check passes, exactly when the
      announced length is the sum of the encoded sizes, whatever stands behind it in the buffer. */
  lemma ArgsArriveExactlyWhenLengthIsRight(sc: Schema, vs: seq<Val>, ts: seq<Ty>, slack: seq<u8>, dataLen: int)
    requires HaveTypes(sc, vs, ts) && AllLengthsFit(vs)
    requires -0x8000_0000 <= dataLen <= I32_MAX && |EncodeAll(vs) + slack| < 0x8000_0000_0000_0000
    ensures ReceiveArgs(sc, ts, EncodeAll(vs) + slack, dataLen) ==
            if dataLen == |EncodeAll(vs)| then Some(vs) else None
  {
    var s := EncodeAll(vs) + slack;
    assert s[0..|EncodeAll(vs)|] == EncodeAll(vs);
    RoundTripFields(sc, vs, ts, s, 0);
  }

  datatype Action = Success | Error | CloseStream | PanicAction

  function ActionByte(a: Action): u8 {
    match a
    case Success => 0
    case Error => 1
    case CloseStream => 2
    case PanicAction => 3
  }

  /** `SseCodec::encode`: one action byte, then what the closure writes. */
  function EncodeMessage(a: Action, data: seq<u8>): seq<u8> {
    [ActionByte(a)] + data
  }

  datatype Outgoing = Value(value: Val) | Failure(error: Val) | PanicMessage(message: seq<u8>) | StreamEnd

  /** `transform_result_sse`, `encode_panic` and `encode_close_stream`. */
  function EncodeOutgoing(o: Outgoing): seq<u8> {
    match o
    case Value(v) => EncodeMessage(Success, Encode(v))
    case Failure(e) => EncodeMessage(Error, Encode(e))
    case PanicMessage(bytes) => EncodeMessage(PanicAction, I32Bytes(|bytes|) + bytes)
    case StreamEnd => EncodeMessage(CloseStream, [])
  }

  /** The payload behind the action byte, and the cursor behind that. */
  function DecodePayload(sc: Schema, t: Ty, s: seq<u8>): Option<(Val, nat)>
    requires |s| > 0
  {
    match Decode(sc, t, s, 1)
    case Ok(v, p) => Some((v, p))
    case Panic(_) => None
  }

  function DecodeIncoming(sc: Schema, ok: Ty, err: Ty, s: seq<u8>): Option<(Outgoing, nat)> {
    if s == [] then None
    else if s[0] == 2 then Some((StreamEnd, 1))
    else
      match DecodePayload(sc, if s[0] == 0 then ok else if s[0] == 1 then err else TString, s)
      case None => None
      case Some((v, p)) =>
        if s[0] == 0 then Some((Value(v), p))
        else if s[0] == 1 then Some((Failure(v), p))
        else if s[0] == 3 && v.VString? then Some((PanicMessage(v.bytes), p))
        else None
  }

  ghost predicate Sendable(sc: Schema, ok: Ty, err: Ty, o: Outgoing) {
    match o
    case Value(v) => HasType(sc, v, ok) && LengthsFit(v)
    case Failure(e) => HasType(sc, e, err) && LengthsFit(e)
    case PanicMessage(bytes) => sc.utf8(bytes) && |bytes| <= I32_MAX
    case StreamEnd => true
  }

  /** A message with one of the three payloads: value, error or panic text. */
  lemma PayloadTold(sc: Schema, ok: Ty, err: Ty, s: seq<u8>, v: Val, p: nat)
    requires |s| > 0 && (s[0] == 0 || s[0] == 1 || s[0] == 3)
    requires DecodePayload(sc, if s[0] == 0 then ok else if s[0] == 1 then err else TString, s) == Some((v, p))
    ensures DecodeIncoming(sc, ok, err, s) ==
            if s[0] == 0 then Some((Value(v), p)) else if s[0] == 1 then Some((Failure(v), p))
            else if v.VString? then Some((PanicMessage(v.bytes), p)) else None
  {}

  /** Results, errors, panics and the end of a stream are told apart, carry their payload and end with it. */
  lemma MessagesArrive(sc: Schema, ok: Ty, err: Ty, o: Outgoing, rest: seq<u8>)
    requires Sendable(sc, ok, err, o)
    ensures DecodeIncoming(sc, ok, err, EncodeOutgoing(o) + rest) == Some((o, |EncodeOutgoing(o)|))
  {
    var s := EncodeOutgoing(o) + rest;
    var p := |EncodeOutgoing(o)|;
    match o {
      case Value(v) =>
        PayloadArrives(sc, v, ok, 0, rest);
        PayloadTold(sc, ok, err, s, v, p);
      case Failure(e) =>
        PayloadArrives(sc, e, err, 1, rest);
        PayloadTold(sc, ok, err, s, e, p);
      case PanicMessage(bytes) =>
        PayloadArrives(sc, VString(bytes), TString, 3, rest);
        PayloadTold(sc, ok, err, s, VString(bytes), p);
      case StreamEnd => assert s[0] == 2;
    }
  }

  lemma PayloadArrives(sc: Schema, v: Val, t: Ty, action: u8, rest: seq<u8>)
    requires HasType(sc, v, t) && LengthsFit(v)
    ensures var s := [action] + Encode(v) + rest;
            s[0] == action && DecodePayload(sc, t, s) == Some((v, 1 + |Encode(v)|))
  {
    var s := [action] + Encode(v) + rest;
    assert s[1..1 + |Encode(v)|] == Encode(v);
    RoundTrip(sc, v, t, s, 1);
  }
}
