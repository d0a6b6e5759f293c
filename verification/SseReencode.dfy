/** Encoding what was decoded: when it gives back the very bytes that were read. */
module SseReencode {
  import opened SseFormat
  import opened SseRoundTrip

  // ----- Flags and lengths as the encoder writes them -----

  /** In the bytes of a value, every flag, of a bool or an option, is 0 or 1 and no length is negative. */
  predicate Plain(sc: Schema, t: Ty, s: seq<u8>, pos: nat)
    requires pos <= |s| && Decode(sc, t, s, pos).Ok?
    decreases |s| - pos, Rank(sc.rank, t), Size(t), 0
  {
    match t
    case TBool => s[pos] == 0 || s[pos] == 1
    case TVec(e) => ReadI32(s, pos).value >= 0 && PlainMany(sc, e, ReadI32(s, pos).value, s, pos + 4)
    case TOption(e) => s[pos] == 0 || (s[pos] == 1 && Plain(sc, e, s, pos + 1))
    case TTuple(ts) => PlainFields(sc, ts, s, pos)
    case TStruct(name) => PlainFields(sc, sc.structs[name], s, pos)
    case TEnum(name) => PlainFields(sc, sc.enums[name][ReadI32(s, pos).value], s, pos + 4)
    case _ => true
  }

  predicate PlainMany(sc: Schema, t: Ty, n: nat, s: seq<u8>, pos: nat)
    requires pos <= |s| && DecodeMany(sc, t, n, s, pos).Ok?
    decreases |s| - pos, Rank(sc.rank, t), Size(t), n + 1
  {
    n == 0 || (Plain(sc, t, s, pos) && PlainMany(sc, t, n - 1, s, Decode(sc, t, s, pos).pos))
  }

  predicate PlainFields(sc: Schema, ts: seq<Ty>, s: seq<u8>, pos: nat)
    requires pos <= |s| && DecodeFields(sc, ts, s, pos).Ok?
    decreases |s| - pos, Ranks(sc.rank, ts), Sizes(ts), 0
  {
    ts == [] || (Plain(sc, ts[0], s, pos) && PlainFields(sc, ts[1..], s, Decode(sc, ts[0], s, pos).pos))
  }

  // ----- Numbers -----

  lemma {:induction false} BytesOfNumber(bs: seq<u8>)
    ensures Bytes(Number(bs), |bs|) == bs
  {
    if bs != [] {
      BytesOfNumber(bs[1..]);
      assert Number(bs) % 256 == bs[0] && Number(bs) / 256 == Number(bs[1..]);
    }
  }

  /** The number n encodes to the four bytes exactly when it was read from them. */
  lemma I32Reencodes(s: seq<u8>, pos: nat, n: int)
    requires pos + 4 <= |s| && -0x8000_0000 <= n <= I32_MAX
    ensures I32Bytes(n) == s[pos..pos + 4] <==> ReadI32(s, pos).value == n
  {
    var bs := s[pos..pos + 4];
    BytesOfNumber(bs);
    NumberIsBounded(bs);
    Powers();
    if I32Bytes(n) == bs {
      ReadBackI32(s, pos, n);
    }
    assert ReadI32(s, pos).value % U32_MODULUS == Number(bs);
  }

  lemma PartsEqual(s: seq<u8>, i: nat, j: nat, k: nat, a: seq<u8>, b: seq<u8>)
    requires i <= j <= k <= |s| && |a| == j - i && |b| == k - j
    ensures a + b == s[i..k] <==> a == s[i..j] && b == s[j..k]
  {
    assert s[i..k] == s[i..j] + s[j..k];
    assert (a + b)[..|a|] == a && (a + b)[|a|..] == b;
    assert s[i..k][..|a|] == s[i..j] && s[i..k][|a|..] == s[j..k];
  }

  // ----- Values -----

  /** s[pos..p] is what v encodes to, exactly if `plain`; it has the right length in any case. */
  ghost predicate Reencodes(s: seq<u8>, pos: nat, p: nat, code: seq<u8>, plain: bool) {
    pos <= p <= |s| && |code| == p - pos && (code == s[pos..p] <==> plain)
  }

  lemma FlagAndRest(s: seq<u8>, pos: nat, p: nat, flag: u8, code: seq<u8>, plain: bool)
    requires pos < |s| && Reencodes(s, pos + 1, p, code, plain)
    ensures Reencodes(s, pos, p, [flag] + code, s[pos] == flag && plain)
  {
    PartsEqual(s, pos, pos + 1, p, [flag], code);
    assert s[pos..pos + 1] == [s[pos]];
    assert [flag][0] == flag && [s[pos]][0] == s[pos];
  }

  lemma NumberAndRest(s: seq<u8>, pos: nat, p: nat, n: int, code: seq<u8>, plain: bool)
    requires pos + 4 <= |s| && -0x8000_0000 <= n <= I32_MAX && Reencodes(s, pos + 4, p, code, plain)
    ensures Reencodes(s, pos, p, I32Bytes(n) + code, ReadI32(s, pos).value == n && plain)
  {
    PartsEqual(s, pos, pos + 4, p, I32Bytes(n), code);
    I32Reencodes(s, pos, n);
  }

  lemma PartAndRest(s: seq<u8>, pos: nat, p: nat, q: nat, a: seq<u8>, b: seq<u8>, plainA: bool, plainB: bool)
    requires Reencodes(s, pos, p, a, plainA) && Reencodes(s, p, q, b, plainB)
    ensures Reencodes(s, pos, q, a + b, plainA && plainB)
  {
    PartsEqual(s, pos, p, q, a, b);
  }

  lemma {:induction false} ValueReencodes(sc: Schema, t: Ty, s: seq<u8>, pos: nat)
    requires pos <= |s| && Decode(sc, t, s, pos).Ok?
    ensures var r := Decode(sc, t, s, pos); Reencodes(s, pos, r.pos, Encode(r.value), Plain(sc, t, s, pos))
    decreases |s| - pos, Rank(sc.rank, t), Size(t), 0
  {
    match t {
      case TVec(e) =>
        if ReadI32(s, pos).value >= 0 {
          ManyReencode(sc, e, ReadI32(s, pos).value, s, pos + 4);
        }
        VecReencodes(sc, e, s, pos);
      case TOption(e) =>
        if s[pos] != 0 {
          ValueReencodes(sc, e, s, pos + 1);
        }
        OptionReencodes(sc, e, s, pos);
      case TTuple(ts) => FieldsReencode(sc, ts, s, pos);
      case TStruct(name) => FieldsReencode(sc, sc.structs[name], s, pos);
      case TEnum(name) =>
        FieldsReencode(sc, sc.enums[name][ReadI32(s, pos).value], s, pos + 4);
        EnumReencodes(sc, name, s, pos);
      case _ => SimpleReencodes(sc, t, s, pos);
    }
  }

  lemma SimpleReencodes(sc: Schema, t: Ty, s: seq<u8>, pos: nat)
    requires pos <= |s| && Decode(sc, t, s, pos).Ok?
    requires t.TUnit? || t.TBool? || t.TU8? || t.TI32? || t.TUsize? || t.TString?
    ensures var r := Decode(sc, t, s, pos); Reencodes(s, pos, r.pos, Encode(r.value), Plain(sc, t, s, pos))
  {
    match t {
      case TUnit =>
      case TBool => BoolReencodes(s, pos);
      case TU8 => assert s[pos..pos + 1] == [s[pos]];
      case TI32 =>
        ReadI32IsI32(s, pos);
        I32Reencodes(s, pos, Decode(sc, t, s, pos).value.i);
      case TUsize => BytesOfNumber(s[pos..pos + 8]);
      case TString => StringReencodes(sc, s, pos);
    }
  }

  lemma VecReencodes(sc: Schema, e: Ty, s: seq<u8>, pos: nat)
    requires pos <= |s| && Decode(sc, TVec(e), s, pos).Ok?
    requires var len := ReadI32(s, pos).value;
             len >= 0 ==>
               var r := DecodeMany(sc, e, len, s, pos + 4);
               r.Ok? && Reencodes(s, pos + 4, r.pos, EncodeAll(r.value), PlainMany(sc, e, len, s, pos + 4))
    ensures var r := Decode(sc, TVec(e), s, pos); Reencodes(s, pos, r.pos, Encode(r.value), Plain(sc, TVec(e), s, pos))
  {
    var r, len := Decode(sc, TVec(e), s, pos), ReadI32(s, pos).value;
    ReadI32IsI32(s, pos);
    if len >= 0 {
      NumberAndRest(s, pos, r.pos, len, EncodeAll(r.value.items), PlainMany(sc, e, len, s, pos + 4));
    } else {
      NumberAndRest(s, pos, pos + 4, 0, EncodeAll([]), true);
    }
  }

  lemma OptionReencodes(sc: Schema, e: Ty, s: seq<u8>, pos: nat)
    requires pos <= |s| && Decode(sc, TOption(e), s, pos).Ok?
    requires s[pos] != 0 ==>
               var r := Decode(sc, e, s, pos + 1); r.Ok? && Reencodes(s, pos + 1, r.pos, Encode(r.value), Plain(sc, e, s, pos + 1))
    ensures var r := Decode(sc, TOption(e), s, pos);
            Reencodes(s, pos, r.pos, Encode(r.value), Plain(sc, TOption(e), s, pos))
  {
    if s[pos] == 0 {
      assert s[pos..pos + 1] == [s[pos]];
    } else {
      var r := Decode(sc, e, s, pos + 1);
      FlagAndRest(s, pos, r.pos, 1, Encode(r.value), Plain(sc, e, s, pos + 1));
    }
  }

  lemma EnumReencodes(sc: Schema, name: nat, s: seq<u8>, pos: nat)
    requires pos <= |s| && Decode(sc, TEnum(name), s, pos).Ok?
    requires var ts := sc.enums[name][ReadI32(s, pos).value];
             var r := DecodeFields(sc, ts, s, pos + 4);
             r.Ok? && Reencodes(s, pos + 4, r.pos, EncodeAll(r.value), PlainFields(sc, ts, s, pos + 4))
    ensures var r := Decode(sc, TEnum(name), s, pos);
            Reencodes(s, pos, r.pos, Encode(r.value), Plain(sc, TEnum(name), s, pos))
  {
    var k := ReadI32(s, pos).value;
    var ts := sc.enums[name][k];
    var r := DecodeFields(sc, ts, s, pos + 4);
    ReadI32IsI32(s, pos);
    NumberAndRest(s, pos, r.pos, k, EncodeAll(r.value), PlainFields(sc, ts, s, pos + 4));
  }

  lemma BoolReencodes(s: seq<u8>, pos: nat)
    requires pos < |s|
    ensures Reencodes(s, pos, pos + 1, Encode(VBool(s[pos] != 0)), s[pos] == 0 || s[pos] == 1)
  {
    var code := Encode(VBool(s[pos] != 0));
    assert s[pos..pos + 1] == [s[pos]];
    assert code[0] == if s[pos] != 0 then 1 else 0;
    assert code == [code[0]];
  }

  lemma StringReencodes(sc: Schema, s: seq<u8>, pos: nat)
    requires pos <= |s| && Decode(sc, TString, s, pos).Ok?
    ensures var r := Decode(sc, TString, s, pos); Reencodes(s, pos, r.pos, Encode(r.value), true)
  {
    var r := Decode(sc, TString, s, pos);
    ReadI32IsI32(s, pos);
    NumberAndRest(s, pos, r.pos, ReadI32(s, pos).value, r.value.bytes, true);
  }

  lemma {:induction false} ManyReencode(sc: Schema, t: Ty, n: nat, s: seq<u8>, pos: nat)
    requires pos <= |s| && DecodeMany(sc, t, n, s, pos).Ok?
    ensures var r := DecodeMany(sc, t, n, s, pos);
            Reencodes(s, pos, r.pos, EncodeAll(r.value), PlainMany(sc, t, n, s, pos))
    decreases |s| - pos, Rank(sc.rank, t), Size(t), n + 1
  {
    if n > 0 {
      var first := Decode(sc, t, s, pos);
      var others := DecodeMany(sc, t, n - 1, s, first.pos);
      ValueReencodes(sc, t, s, pos);
      ManyReencode(sc, t, n - 1, s, first.pos);
      PartAndRest(s, pos, first.pos, others.pos, Encode(first.value), EncodeAll(others.value),
                  Plain(sc, t, s, pos), PlainMany(sc, t, n - 1, s, first.pos));
      EncodeFirst(first.value, others.value);
    }
  }

  lemma EncodeFirst(v: Val, vs: seq<Val>)
    ensures EncodeAll([v] + vs) == Encode(v) + EncodeAll(vs)
  {
    assert ([v] + vs)[1..] == vs;
  }

  lemma {:induction false} FieldsReencode(sc: Schema, ts: seq<Ty>, s: seq<u8>, pos: nat)
    requires pos <= |s| && DecodeFields(sc, ts, s, pos).Ok?
    ensures var r := DecodeFields(sc, ts, s, pos);
            Reencodes(s, pos, r.pos, EncodeAll(r.value), PlainFields(sc, ts, s, pos))
    decreases |s| - pos, Ranks(sc.rank, ts), Sizes(ts), 0
  {
    if ts != [] {
      var first := Decode(sc, ts[0], s, pos);
      var others := DecodeFields(sc, ts[1..], s, first.pos);
      ValueReencodes(sc, ts[0], s, pos);
      FieldsReencode(sc, ts[1..], s, first.pos);
      PartAndRest(s, pos, first.pos, others.pos, Encode(first.value), EncodeAll(others.value),
                  Plain(sc, ts[0], s, pos), PlainFields(sc, ts[1..], s, first.pos));
      EncodeFirst(first.value, others.value);
    }
  }

  /** The converse of the round trip: whatever bytes a value was decoded from, encoding it gives back those
      bytes exactly when every flag among them is 0 or 1 and no length is negative. */
  lemma EncodingGivesTheBytesBackExactlyWhen(sc: Schema, t: Ty, s: seq<u8>, pos: nat)
    requires pos <= |s| && Decode(sc, t, s, pos).Ok?
    ensures var r := Decode(sc, t, s, pos);
            |Encode(r.value)| == r.pos - pos && (Encode(r.value) == s[pos..r.pos] <==> Plain(sc, t, s, pos))
  {
    ValueReencodes(sc, t, s, pos);
  }

  /** And whatever is encoded has such flags and lengths. */
  lemma EncodingsArePlain(sc: Schema, v: Val, t: Ty, s: seq<u8>, pos: nat)
    requires HasType(sc, v, t) && LengthsFit(v) && At(s, pos, Encode(v))
    ensures Decode(sc, t, s, pos).Ok? && Plain(sc, t, s, pos)
  {
    RoundTrip(sc, v, t, s, pos);
    ValueReencodes(sc, t, s, pos);
  }
}
