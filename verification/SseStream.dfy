/** The serializer and the deserializer that move a cursor, as the generated code drives them. */
module SseStream {
  import opened Wrappers
  import opened SseFormat
  import opened SseRoundTrip

  /** Writes at the end of a growing buffer. */
  class SseSerializer {
    var buffer: seq<u8>

    constructor ()
      ensures buffer == []
    {
      buffer := [];
    }

    method WriteU8(byte: u8)
      modifies this
      ensures buffer == old(buffer) + [byte]
    {
      buffer := buffer + [byte];
    }

    /** `write_i32` of a number cast to `i32`. */
    method WriteI32(i: int)
      modifies this
      ensures buffer == old(buffer) + I32Bytes(i)
    {
      buffer := buffer + I32Bytes(i);
    }

    method WriteU64(n: nat)
      modifies this
      ensures buffer == old(buffer) + Bytes(n, 8)
    {
      buffer := buffer + Bytes(n, 8);
    }

    method WriteBytes(bytes: seq<u8>)
      modifies this
      ensures buffer == old(buffer) + bytes
    {
      for i := 0 to |bytes|
        invariant buffer == old(buffer) + bytes[..i]
      {
        WriteU8(bytes[i]);
      }
    }

    /** `sse_encode` */
    method EncodeValue(v: Val)
      modifies this
      ensures buffer == old(buffer) + Encode(v)
      decreases v, 0
    {
      match v {
        case VUnit =>
        case VBool(b) => WriteU8(if b then 1 else 0);
        case VU8(byte) => WriteU8(byte);
        case VI32(i) => WriteI32(i);
        case VUsize(n) => WriteU64(n);
        case VString(bytes) => EncodeString(bytes);
        case VVec(items) => EncodeNumbered(|items|, items);
        case VNone => WriteU8(0);
        case VSome(x) =>
          WriteU8(1);
          EncodeValue(x);
        case VStruct(fs) => EncodeEach(fs);
        case VEnum(k, fs) => EncodeNumbered(k, fs);
      }
    }

    method EncodeString(bytes: seq<u8>)
      modifies this
      ensures buffer == old(buffer) + Encode(VString(bytes))
    {
      WriteI32(|bytes|);
      WriteBytes(bytes);
    }

    /** A length or a tag, and the values it announces. */
    method EncodeNumbered(n: int, vs: seq<Val>)
      modifies this
      ensures buffer == old(buffer) + (I32Bytes(n) + EncodeAll(vs))
      decreases vs, 2
    {
      WriteI32(n);
      EncodeEach(vs);
    }

    method EncodeEach(vs: seq<Val>)
      modifies this
      ensures buffer == old(buffer) + EncodeAll(vs)
      decreases vs, 1
    {
      for i := 0 to |vs|
        invariant buffer + EncodeAll(vs[i..]) == old(buffer) + EncodeAll(vs)
      {
        assert vs[i..][0] == vs[i] && vs[i..][1..] == vs[i + 1..];
        EncodeValue(vs[i]);
      }
    }
  }

  /** `SseCodec::encode` with a generated closure. */
  method SendValue(action: Action, v: Val) returns (message: seq<u8>)
    ensures message == EncodeMessage(action, Encode(v))
  {
    var serializer := new SseSerializer();
    serializer.WriteU8(ActionByte(action));
    serializer.EncodeValue(v);
    return serializer.buffer;
  }

  /** `encode_panic`, with its own copy of the string encoding: the same bytes as the generated one. */
  method SendPanic(text: seq<u8>) returns (message: seq<u8>)
    ensures message == EncodeOutgoing(PanicMessage(text))
    ensures message == EncodeMessage(PanicAction, Encode(VString(text)))
  {
    var serializer := new SseSerializer();
    serializer.WriteU8(ActionByte(PanicAction));
    serializer.WriteI32(|text|);
    for i := 0 to |text|
      invariant serializer.buffer == [ActionByte(PanicAction)] + I32Bytes(|text|) + text[..i]
    {
      serializer.WriteU8(text[i]);
    }
    return serializer.buffer;
  }

  lemma OntoTwice(read: seq<Val>, v: Val, next: Outcome<seq<Val>>)
    ensures Onto(read, Onto([v], next)) == Onto(read + [v], next)
  {
    if next.Ok? {
      assert read + ([v] + next.value) == read + [v] + next.value;
    }
  }

  /** Reads a received buffer; `dataLen` is the announced length of the data in it. */
  class SseDeserializer {
    const vec: seq<u8>
    const dataLen: int
    var position: nat

    ghost predicate Valid()
      reads this
    {
      position <= |vec|
    }

    constructor (vec: seq<u8>, dataLen: int)
      ensures Valid() && position == 0 && this.vec == vec && this.dataLen == dataLen
    {
      this.vec, this.dataLen, position := vec, dataLen, 0;
    }

    method ReadU8() returns (r: Outcome<u8>)
      requires Valid()
      modifies this`position
      ensures Valid() && r == ReadByte(vec, old(position))
      ensures position == if r.Ok? then r.pos else old(position)
    {
      if position == |vec| {
        return Panic(EndOfInput);
      }
      position := position + 1;
      return Ok(vec[position - 1], position);
    }

    method ReadLittleEndian(k: nat) returns (r: Outcome<nat>)
      requires Valid()
      modifies this`position
      ensures Valid() && r == ReadNumber(vec, old(position), k)
      ensures position == if r.Ok? then r.pos else old(position)
    {
      if position + k > |vec| {
        return Panic(EndOfInput);
      }
      position := position + k;
      return Ok(Number(vec[position - k..position]), position);
    }

    method ReadInt() returns (r: Outcome<int>)
      requires Valid()
      modifies this`position
      ensures Valid() && r == ReadI32(vec, old(position))
      ensures position == if r.Ok? then r.pos else old(position)
    {
      var n := ReadLittleEndian(4);
      match n {
        case Ok(value, p) => return Ok(AsI32(value), p);
        case Panic(why) => return Panic(why);
      }
    }

    /** `len` bytes pushed one by one. */
    method ReadBytes(len: nat) returns (r: Outcome<seq<u8>>)
      requires Valid()
      modifies this`position
      ensures Valid()
      ensures old(position) + len <= |vec| ==>
                position == old(position) + len && r == Ok(vec[old(position)..position], position)
      ensures old(position) + len > |vec| ==> r == Panic(EndOfInput)
    {
      var bytes: seq<u8> := [];
      for i := 0 to len
        invariant Valid() && position == old(position) + i
        invariant bytes == vec[old(position)..position]
      {
        var byte := ReadU8();
        if byte.Panic? {
          return Panic(byte.why);
        }
        bytes := bytes + [byte.value];
      }
      return Ok(bytes, position);
    }

    /** `sse_decode` */
    method DecodeValue(sc: Schema, t: Ty) returns (r: Outcome<Val>)
      requires Valid()
      modifies this`position
      ensures Valid() && r == Decode(sc, t, vec, old(position))
      ensures r.Ok? ==> position == r.pos
      decreases |vec| - position, Rank(sc.rank, t), Size(t), 1
    {
      match t {
        case TUnit =>
          return Ok(VUnit, position);
        case TBool =>
          var b := ReadU8();
          if b.Panic? { return Panic(b.why); }
          return Ok(VBool(b.value != 0), position);
        case TU8 =>
          var b := ReadU8();
          if b.Panic? { return Panic(b.why); }
          return Ok(VU8(b.value), position);
        case TI32 =>
          var i := ReadInt();
          if i.Panic? { return Panic(i.why); }
          return Ok(VI32(i.value), position);
        case TUsize =>
          var n := ReadLittleEndian(8);
          if n.Panic? { return Panic(n.why); }
          return Ok(VUsize(n.value), position);
        case TString => r := DecodeString(sc);
        case TVec(e) => r := DecodeVec(sc, e);
        case TOption(e) =>
          var b := ReadU8();
          if b.Panic? { return Panic(b.why); }
          if b.value == 0 { return Ok(VNone, position); }
          var x := DecodeValue(sc, e);
          if x.Panic? { return Panic(x.why); }
          return Ok(VSome(x.value), position);
        case TTuple(ts) =>
          var fs := DecodeEach(sc, ts);
          if fs.Panic? { return Panic(fs.why); }
          return Ok(VStruct(fs.value), position);
        case TStruct(name) =>
          if name !in sc.structs { return Panic(UnknownType); }
          var fs := DecodeEach(sc, sc.structs[name]);
          if fs.Panic? { return Panic(fs.why); }
          return Ok(VStruct(fs.value), position);
        case TEnum(name) =>
          var k := ReadInt();
          if k.Panic? { return Panic(k.why); }
          if name !in sc.enums || k.value < 0 || |sc.enums[name]| <= k.value { return Panic(UnknownVariant); }
          var fs := DecodeEach(sc, sc.enums[name][k.value]);
          if fs.Panic? { return Panic(fs.why); }
          return Ok(VEnum(k.value, fs.value), position);
      }
    }

    method DecodeString(sc: Schema) returns (r: Outcome<Val>)
      requires Valid()
      modifies this`position
      ensures Valid() && r == Decode(sc, TString, vec, old(position))
      ensures r.Ok? ==> position == r.pos
    {
      var len := ReadInt();
      if len.Panic? { return Panic(len.why); }
      if len.value < 0 { return Panic(CapacityOverflow); }
      var bytes := ReadBytes(len.value);
      if bytes.Panic? { return Panic(bytes.why); }
      if !sc.utf8(bytes.value) { return Panic(NotUtf8); }
      return Ok(VString(bytes.value), position);
    }

    method DecodeVec(sc: Schema, e: Ty) returns (r: Outcome<Val>)
      requires Valid()
      modifies this`position
      ensures Valid() && r == Decode(sc, TVec(e), vec, old(position))
      ensures r.Ok? ==> position == r.pos
      decreases |vec| - position, Rank(sc.rank, TVec(e)), Size(TVec(e)), 0
    {
      var len := ReadInt();
      if len.Panic? { return Panic(len.why); }
      if len.value < 0 && !sc.zeroSized(e) { return Panic(CapacityOverflow); }
      if len.value < 0 { return Ok(VVec([]), position); }
      var items := DecodeItems(sc, e, len.value);
      if items.Panic? { return Panic(items.why); }
      return Ok(VVec(items.value), position);
    }

    /** The loop that pushes one decoded element after the other. */
    method DecodeItems(sc: Schema, e: Ty, len: nat) returns (r: Outcome<seq<Val>>)
      requires Valid()
      modifies this`position
      ensures Valid() && r == DecodeMany(sc, e, len, vec, old(position))
      ensures r.Ok? ==> position == r.pos
      decreases |vec| - position, Rank(sc.rank, e), Size(e), 2
    {
      ghost var all := DecodeMany(sc, e, len, vec, position);
      var items: seq<Val> := [];
      assert all.Ok? ==> [] + all.value == all.value;
      for i := 0 to len
        invariant Valid() && old(position) <= position
        invariant all == Onto(items, DecodeMany(sc, e, len - i, vec, position))
      {
        var x := DecodeValue(sc, e);
        if x.Panic? { return Panic(x.why); }
        OntoTwice(items, x.value, DecodeMany(sc, e, len - i - 1, vec, position));
        items := items + [x.value];
      }
      assert items + [] == items;
      return Ok(items, position);
    }

    /** The fields of a struct or variant, or a call's arguments, in order. */
    method DecodeEach(sc: Schema, ts: seq<Ty>) returns (r: Outcome<seq<Val>>)
      requires Valid()
      modifies this`position
      ensures Valid() && r == DecodeFields(sc, ts, vec, old(position))
      ensures r.Ok? ==> position == r.pos
      decreases |vec| - position, Ranks(sc.rank, ts), Sizes(ts), 0
    {
      if ts == [] {
        return Ok([], position);
      }
      var v := DecodeValue(sc, ts[0]);
      if v.Panic? { return Panic(v.why); }
      var vs := DecodeEach(sc, ts[1..]);
      if vs.Panic? { return Panic(vs.why); }
      return Ok([v.value] + vs.value, position);
    }

    /** `end`: false is the failed assertion. */
    method End() returns (ok: bool)
      ensures ok == (AsU64(dataLen) == position)
    {
      var announced := if dataLen < 0 then dataLen + 0x1_0000_0000_0000_0000 else dataLen;
      return announced == position;
    }
  }

  /** How every wire function starts: decode the arguments in order, then check the cursor. */
  method ReceiveAll(sc: Schema, ts: seq<Ty>, vec: seq<u8>, dataLen: int) returns (args: Option<seq<Val>>)
    ensures args == ReceiveArgs(sc, ts, vec, dataLen)
  {
    var deserializer := new SseDeserializer(vec, dataLen);
    var decoded := deserializer.DecodeEach(sc, ts);
    if decoded.Panic? {
      return None;
    }
    var ok := deserializer.End();
    return if ok then Some(decoded.value) else None;
  }

  /** Over the whole path: what one side sends with the right length, the other side receives. */
  method SendAndReceive(sc: Schema, ts: seq<Ty>, vs: seq<Val>, slack: seq<u8>) returns (args: Option<seq<Val>>)
    requires HaveTypes(sc, vs, ts) && AllLengthsFit(vs)
    requires |EncodeAll(vs)| <= I32_MAX && |EncodeAll(vs) + slack| < 0x8000_0000_0000_0000
    ensures args == Some(vs)
  {
    var serializer := new SseSerializer();
    serializer.EncodeEach(vs);
    assert serializer.buffer == EncodeAll(vs);
    ArgsArriveExactlyWhenLengthIsRight(sc, vs, ts, slack, |serializer.buffer|);
    args := ReceiveAll(sc, ts, serializer.buffer + slack, |serializer.buffer|);
  }
}
