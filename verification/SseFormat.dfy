/** The wire format of the SSE codec: values of every generated type, their bytes, and the decoder
    as a function of the bytes and the cursor. */
module SseFormat {
  type u8 = x: nat | x < 256

  const I32_MAX: nat := 0x7fff_ffff
  const U32_MODULUS: nat := 0x1_0000_0000

  // ----- Types and values -----

  /** Structs and enums are named, so that they may contain themselves; a tuple is its parts in order. */
  datatype Ty =
    | TUnit | TBool | TU8 | TI32 | TUsize | TString
    | TVec(elem: Ty) | TOption(elem: Ty) | TTuple(parts: seq<Ty>)
    | TStruct(name: nat) | TEnum(name: nat)

  datatype Val =
    | VUnit | VBool(b: bool) | VU8(byte: u8) | VI32(i: int) | VUsize(n: nat) | VString(bytes: seq<u8>)
    | VVec(items: seq<Val>) | VNone | VSome(value: Val) | VStruct(fields: seq<Val>)
    | VEnum(variant: nat, fields: seq<Val>)

  /** What the generated code knows beside a type: the fields of every struct and of every enum variant,
      which byte strings are UTF-8, and which types occupy no memory. `rank` orders the structs. */
  datatype Definitions = Definitions(
    structs: map<nat, seq<Ty>>, enums: map<nat, seq<seq<Ty>>>, rank: nat -> nat, utf8: seq<u8> -> bool, zeroSized: Ty -> bool)

  /** Above every struct that a value of the type must contain, rather than may contain in a list, an
      option or a variant. */
  function Rank(rank: nat -> nat, t: Ty): nat {
    match t
    case TStruct(name) => rank(name) + 1
    case TTuple(ts) => Ranks(rank, ts)
    case _ => 0
  }

  function Ranks(rank: nat -> nat, ts: seq<Ty>): nat {
    if ts == [] then 0
    else
      var first, others := Rank(rank, ts[0]), Ranks(rank, ts[1..]);
      if first > others then first else others
  }

  /** No struct must contain itself: such a struct would have no values. It may hold a list of its own kind. */
  predicate WellFounded(sc: Definitions) {
    forall name <- sc.structs :: Ranks(sc.rank, sc.structs[name]) <= sc.rank(name)
  }

  /** The witness has one struct, a tree node: a number, some bytes, a flag and its children. */
  type Schema = sc: Definitions | WellFounded(sc)
    witness Definitions(map[0 := [TI32, TVec(TU8), TBool, TVec(TStruct(0))]], map[], _ => 0, _ => true, _ => false)

  predicate HasType(sc: Schema, v: Val, t: Ty)
    decreases v
  {
    match (v, t)
    case (VUnit, TUnit) => true
    case (VBool(_), TBool) => true
    case (VU8(_), TU8) => true
    case (VI32(i), TI32) => -0x8000_0000 <= i <= I32_MAX
    case (VUsize(n), TUsize) => n < 0x1_0000_0000_0000_0000
    case (VString(bytes), TString) => sc.utf8(bytes)
    case (VVec(items), TVec(e)) => forall i :: 0 <= i < |items| ==> HasType(sc, items[i], e)
    case (VNone, TOption(_)) => true
    case (VSome(x), TOption(e)) => HasType(sc, x, e)
    case (VStruct(fs), TTuple(ts)) => |fs| == |ts| && forall i :: 0 <= i < |fs| ==> HasType(sc, fs[i], ts[i])
    case (VStruct(fs), TStruct(name)) =>
      && name in sc.structs && |fs| == |sc.structs[name]|
      && forall i :: 0 <= i < |fs| ==> HasType(sc, fs[i], sc.structs[name][i])
    case (VEnum(k, fs), TEnum(name)) =>
      && name in sc.enums && k < |sc.enums[name]| && k <= I32_MAX && |fs| == |sc.enums[name][k]|
      && forall i :: 0 <= i < |fs| ==> HasType(sc, fs[i], sc.enums[name][k][i])
    case _ => false
  }

  predicate HaveTypes(sc: Schema, vs: seq<Val>, ts: seq<Ty>) {
    |vs| == |ts| && forall i :: 0 <= i < |vs| ==> HasType(sc, vs[i], ts[i])
  }

  predicate AllHaveType(sc: Schema, vs: seq<Val>, t: Ty) {
    forall i :: 0 <= i < |vs| ==> HasType(sc, vs[i], t)
  }

  /** Every list and every string in the value has a length an `i32` can hold. */
  predicate LengthsFit(v: Val)
    decreases v
  {
    match v
    case VString(bytes) => |bytes| <= I32_MAX
    case VVec(items) => |items| <= I32_MAX && forall i :: 0 <= i < |items| ==> LengthsFit(items[i])
    case VSome(x) => LengthsFit(x)
    case VStruct(fs) => forall i :: 0 <= i < |fs| ==> LengthsFit(fs[i])
    case VEnum(_, fs) => forall i :: 0 <= i < |fs| ==> LengthsFit(fs[i])
    case _ => true
  }

  predicate AllLengthsFit(vs: seq<Val>) {
    forall i :: 0 <= i < |vs| ==> LengthsFit(vs[i])
  }

  // ----- Numbers as bytes, least significant first -----

  function Bytes(n: nat, k: nat): (bs: seq<u8>)
    ensures |bs| == k
  {
    if k == 0 then [] else [n % 256] + Bytes(n / 256, k - 1)
  }

  function Number(bs: seq<u8>): nat {
    if bs == [] then 0 else bs[0] + 256 * Number(bs[1..])
  }

  function Pow256(k: nat): nat {
    if k == 0 then 1 else 256 * Pow256(k - 1)
  }

  lemma {:induction false} NumberOfBytes(n: nat, k: nat)
    requires n < Pow256(k)
    ensures Number(Bytes(n, k)) == n
  {
    if k > 0 {
      NumberOfBytes(n / 256, k - 1);
      assert Bytes(n, k)[1..] == Bytes(n / 256, k - 1);
    }
  }

  lemma {:induction false} NumberIsBounded(bs: seq<u8>)
    ensures Number(bs) < Pow256(|bs|)
  {
    if bs != [] {
      NumberIsBounded(bs[1..]);
    }
  }

  lemma Powers()
    ensures Pow256(4) == U32_MODULUS && Pow256(8) == 0x1_0000_0000_0000_0000
  {
    assert Pow256(2) == 0x1_0000;
    assert Pow256(4) == 256 * (256 * Pow256(2));
    assert Pow256(6) == 256 * (256 * Pow256(4));
    assert Pow256(8) == 256 * (256 * Pow256(6));
  }

  /** The four bytes of a number cast to `i32`: its low 32 bits, two's complement. */
  function I32Bytes(i: int): (bs: seq<u8>)
    ensures |bs| == 4
  {
    Bytes(i % U32_MODULUS, 4)
  }

  function AsI32(n: nat): int {
    if n > I32_MAX then n - U32_MODULUS else n
  }

  // ----- Encoding -----

  function Encode(v: Val): seq<u8>
    decreases v, 0
  {
    match v
    case VUnit => []
    case VBool(b) => [if b then 1 else 0]
    case VU8(byte) => [byte]
    case VI32(i) => I32Bytes(i)
    case VUsize(n) => Bytes(n, 8)
    case VString(bytes) => I32Bytes(|bytes|) + bytes
    case VVec(items) => I32Bytes(|items|) + EncodeAll(items)
    case VNone => [0]
    case VSome(x) => [1] + Encode(x)
    case VStruct(fs) => EncodeAll(fs)
    case VEnum(k, fs) => I32Bytes(k) + EncodeAll(fs)
  }

  function EncodeAll(vs: seq<Val>): seq<u8>
    decreases vs, 1
  {
    if vs == [] then [] else Encode(vs[0]) + EncodeAll(vs[1..])
  }

  // ----- Decoding -----

  datatype Failure = EndOfInput | CapacityOverflow | NotUtf8 | UnknownVariant | UnknownType

  /** A decoded value with the cursor behind it, or a panic. */
  datatype Outcome<T> = Ok(value: T, pos: nat) | Panic(why: Failure)

  function ReadByte(s: seq<u8>, pos: nat): Outcome<u8> {
    if pos < |s| then Ok(s[pos], pos + 1) else Panic(EndOfInput)
  }

  function ReadNumber(s: seq<u8>, pos: nat, k: nat): Outcome<nat> {
    if pos + k <= |s| then Ok(Number(s[pos..pos + k]), pos + k) else Panic(EndOfInput)
  }

  function ReadI32(s: seq<u8>, pos: nat): Outcome<int> {
    match ReadNumber(s, pos, 4)
    case Ok(n, p) => Ok(AsI32(n), p)
    case Panic(why) => Panic(why)
  }

  function Size(t: Ty): nat {
    match t
    case TTuple(ts) => 1 + Sizes(ts)
    case _ => 1
  }

  function Sizes(ts: seq<Ty>): nat {
    if ts == [] then 0 else 1 + Size(ts[0]) + Sizes(ts[1..])
  }

  /** `sse_decode` of a type. A list or string reads its length, reserves the capacity (which panics
      for a negative length unless the elements occupy no memory), then reads that many elements. */
  function Decode(sc: Schema, t: Ty, s: seq<u8>, pos: nat): (r: Outcome<Val>)
    requires pos <= |s|
    ensures r.Ok? ==> pos <= r.pos <= |s|
    decreases |s| - pos, Rank(sc.rank, t), Size(t), 0
  {
    match t
    case TUnit => Ok(VUnit, pos)
    case TBool => (match ReadByte(s, pos) case Ok(b, p) => Ok(VBool(b != 0), p) case Panic(why) => Panic(why))
    case TU8 => (match ReadByte(s, pos) case Ok(b, p) => Ok(VU8(b), p) case Panic(why) => Panic(why))
    case TI32 => (match ReadI32(s, pos) case Ok(i, p) => Ok(VI32(i), p) case Panic(why) => Panic(why))
    case TUsize => (match ReadNumber(s, pos, 8) case Ok(n, p) => Ok(VUsize(n), p) case Panic(why) => Panic(why))
    case TString =>
      (match ReadI32(s, pos)
       case Panic(why) => Panic(why)
       case Ok(len, p) =>
         if len < 0 then Panic(CapacityOverflow)
         else if p + len > |s| then Panic(EndOfInput)
         else if !sc.utf8(s[p..p + len]) then Panic(NotUtf8)
         else Ok(VString(s[p..p + len]), p + len))
    case TVec(e) =>
      (match ReadI32(s, pos)
       case Panic(why) => Panic(why)
       case Ok(len, p) =>
         if len < 0 then
           if sc.zeroSized(e) then Ok(VVec([]), p) else Panic(CapacityOverflow)
         else
           match DecodeMany(sc, e, len, s, p)
           case Ok(items, q) => Ok(VVec(items), q)
           case Panic(why) => Panic(why))
    case TOption(e) =>
      (match ReadByte(s, pos)
       case Panic(why) => Panic(why)
       case Ok(b, p) =>
         if b == 0 then Ok(VNone, p)
         else
           match Decode(sc, e, s, p)
           case Ok(x, q) => Ok(VSome(x), q)
           case Panic(why) => Panic(why))
    case TTuple(ts) =>
      (match DecodeFields(sc, ts, s, pos)
       case Ok(fs, p) => Ok(VStruct(fs), p)
       case Panic(why) => Panic(why))
    case TStruct(name) =>
      if name !in sc.structs then Panic(UnknownType)
      else
        (match DecodeFields(sc, sc.structs[name], s, pos)
         case Ok(fs, p) => Ok(VStruct(fs), p)
         case Panic(why) => Panic(why))
    case TEnum(name) =>
      match ReadI32(s, pos)
      case Panic(why) => Panic(why)
      case Ok(k, p) =>
        if name in sc.enums && 0 <= k < |sc.enums[name]| then
          match DecodeFields(sc, sc.enums[name][k], s, p)
          case Ok(fs, q) => Ok(VEnum(k, fs), q)
          case Panic(why) => Panic(why)
        else
          Panic(UnknownVariant)
  }

  /** The values read so far, before the ones read next. */
  function Onto(read: seq<Val>, next: Outcome<seq<Val>>): Outcome<seq<Val>> {
    match next
    case Ok(vs, p) => Ok(read + vs, p)
    case Panic(why) => Panic(why)
  }

  /** n elements of one type, one after the other. */
  function DecodeMany(sc: Schema, t: Ty, n: nat, s: seq<u8>, pos: nat): (r: Outcome<seq<Val>>)
    requires pos <= |s|
    ensures r.Ok? ==> pos <= r.pos <= |s| && |r.value| == n
    decreases |s| - pos, Rank(sc.rank, t), Size(t), n + 1
  {
    if n == 0 then Ok([], pos)
    else
      match Decode(sc, t, s, pos)
      case Panic(why) => Panic(why)
      case Ok(v, p) => Onto([v], DecodeMany(sc, t, n - 1, s, p))
  }

  /** The fields of a struct, a variant or an argument list. */
  function DecodeFields(sc: Schema, ts: seq<Ty>, s: seq<u8>, pos: nat): (r: Outcome<seq<Val>>)
    requires pos <= |s|
    ensures r.Ok? ==> pos <= r.pos <= |s| && |r.value| == |ts|
    decreases |s| - pos, Ranks(sc.rank, ts), Sizes(ts), 0
  {
    if ts == [] then Ok([], pos)
    else
      match Decode(sc, ts[0], s, pos)
      case Panic(why) => Panic(why)
      case Ok(v, p) => Onto([v], DecodeFields(sc, ts[1..], s, p))
  }
}
