// The bytes of single fields, written out without schemas: what a tag byte, a number, a
// string and a submessage look like on the wire.
module Layout {
  import opened Bytes
  import opened Varints
  import opened Wire
  import opened Codec
  import opened Runtime
  import opened Messages

  /** A number field: nothing for 0, else its tag byte and the number modulo 2^64 as a varint. */
  function VarintField(tag: byte, n: int): bytes {
    if n == 0 then [] else [tag] + EncodeVarint(n % 0x1_0000_0000_0000_0000)
  }

  /** A float field: nothing for the bits 0, else its tag byte and four bytes, the low one first. */
  function FloatField(tag: byte, bits: uint32): bytes {
    if bits == 0 then []
    else [tag, bits % 0x100, bits / 0x100 % 0x100, bits / 0x1_0000 % 0x100, bits / 0x100_0000]
  }

  /** A submessage or a packed list: its tag, its length and its bytes. */
  function LenField(tag: bytes, s: bytes): bytes {
    tag + EncodeVarint(|s|) + s
  }

  function StringField(tag: byte, s: bytes): bytes {
    if s == [] then [] else LenField([tag], s)
  }

  /** Varints one after the other. */
  function VarintList(ns: seq<nat>): bytes {
    if ns == [] then [] else VarintList(ns[..|ns| - 1]) + EncodeVarint(ns[|ns| - 1])
  }

  function PackedField(tag: byte, ns: seq<nat>): bytes {
    if ns == [] then [] else LenField([tag], VarintList(ns))
  }

  function LenFields(tag: byte, bodies: seq<bytes>): bytes {
    if bodies == [] then [] else LenFields(tag, bodies[..|bodies| - 1]) + LenField([tag], bodies[|bodies| - 1])
  }

  /** An unknown field, by its wire type. */
  function UnknownField(r: Record): bytes {
    match r.body
    case Varint(v) => EncodeVarint(8 * r.num) + EncodeVarint(v)
    case Fixed64(v) =>
      EncodeVarint(8 * r.num + 1) +
      [v % 0x100, v / 0x100 % 0x100, v / 0x1_0000 % 0x100, v / 0x100_0000 % 0x100,
       v / 0x1_0000_0000 % 0x100, v / 0x100_0000_0000 % 0x100, v / 0x1_0000_0000_0000 % 0x100,
       v / 0x100_0000_0000_0000 % 0x100]
    case Len(s) => LenField(EncodeVarint(8 * r.num + 2), s)
    case Fixed32(v) =>
      EncodeVarint(8 * r.num + 5) + [v % 0x100, v / 0x100 % 0x100, v / 0x1_0000 % 0x100, v / 0x100_0000 % 0x100]
  }

  function UnknownFields(rs: seq<Record>): bytes {
    if rs == [] then [] else UnknownFields(rs[..|rs| - 1]) + UnknownField(rs[|rs| - 1])
  }

  // ---- Single records -------------------------------------------------------------------

  lemma Powers256()
    ensures Pow256(0) == 1 && Pow256(1) == 0x100 && Pow256(2) == 0x1_0000 && Pow256(3) == 0x100_0000
    ensures Pow256(4) == 0x1_0000_0000 && Pow256(5) == 0x100_0000_0000 && Pow256(6) == 0x1_0000_0000_0000
    ensures Pow256(7) == 0x100_0000_0000_0000
  {
    FixedWidths();
    assert Pow256(7) == 256 * Pow256(6);
    assert Pow256(6) == 256 * Pow256(5);
    assert Pow256(5) == 256 * Pow256(4);
    assert Pow256(4) == 256 * Pow256(3);
    assert Pow256(3) == 256 * Pow256(2);
  }

  lemma {:induction false} FourBytes(v: nat)
    ensures LittleEndian(v, 4) == [v % 0x100, v / 0x100 % 0x100, v / 0x1_0000 % 0x100, v / 0x100_0000 % 0x100]
  {
    hide LittleEndian;
    Powers256();
    LittleEndianByte(v, 4, 0);
    LittleEndianByte(v, 4, 1);
    LittleEndianByte(v, 4, 2);
    LittleEndianByte(v, 4, 3);
  }

  lemma {:induction false} EightBytes(v: nat)
    ensures LittleEndian(v, 8) ==
            [v % 0x100, v / 0x100 % 0x100, v / 0x1_0000 % 0x100, v / 0x100_0000 % 0x100,
             v / 0x1_0000_0000 % 0x100, v / 0x100_0000_0000 % 0x100, v / 0x1_0000_0000_0000 % 0x100,
             v / 0x100_0000_0000_0000 % 0x100]
  {
    hide LittleEndian, Pow256;
    Powers256();
    forall i: nat | i < 8 ensures LittleEndian(v, 8)[i] == v / Pow256(i) % 256 { LittleEndianByte(v, 8, i); }
  }

  lemma UnknownFieldLayout(r: Record)
    ensures EmitRecord(r) == UnknownField(r)
  {
    hide LittleEndian, EncodeVarint;
    match r.body
    case Fixed64(v) => EightBytes(v);
    case Fixed32(v) => FourBytes(v);
    case Len(s) => Assoc(EncodeVarint(8 * r.num + 2), EncodeVarint(|s|), s);
    case Varint(_) =>
  }

  lemma {:induction false} UnknownFieldsLayout(rs: seq<Record>)
    ensures Emit(rs) == UnknownFields(rs)
  {
    hide EmitRecord, UnknownField;
    if rs != [] {
      var last := |rs| - 1;
      UnknownFieldsLayout(rs[..last]);
      UnknownFieldLayout(rs[last]);
      EmitNext(rs, last);
      assert rs[..last + 1] == rs;
    }
  }

  lemma SmallTag(tag: nat)
    requires tag < 128
    ensures EncodeVarint(tag) == [tag]
  {}

  lemma {:induction false} NumberLayout(num: nat, ty: NumberType, n: int)
    requires 1 <= num < 16 && InRange(ty, n) && ty != Float32
    ensures SlotBytes(Number(num, ty), Num(n)) == VarintField(8 * num, n)
  {
    hide EncodeVarint, SlotBytes;
    NumberBytes(num, ty, n);
    NumberBits(ty, n, 0);
    SmallTag(8 * num);
  }

  lemma {:induction false} FloatLayout(num: nat, bits: uint32)
    requires 1 <= num < 15
    ensures SlotBytes(Number(num, Float32), Num(bits)) == FloatField(8 * num + 5, bits)
  {
    hide EncodeVarint, SlotBytes, LittleEndian;
    NumberBytes(num, Float32, bits);
    FourBytes(bits);
    SmallTag(8 * num + 5);
  }

  lemma {:induction false} LenLayout(num: nat, s: bytes)
    ensures EmitRecord(Record(num, Len(s))) == LenField(EncodeVarint(8 * num + 2), s)
    ensures num < 15 ==> EmitRecord(Record(num, Len(s))) == LenField([8 * num + 2], s)
  {
    hide EncodeVarint;
    Assoc(EncodeVarint(8 * num + 2), EncodeVarint(|s|), s);
    if num < 15 { SmallTag(8 * num + 2); }
  }

  lemma {:induction false} TextLayout(num: nat, t: bytes)
    requires 1 <= num < 15
    ensures SlotBytes(Text(num), Str(t)) == StringField(8 * num + 2, t)
  {
    hide SlotBytes, EmitRecord, LenField;
    TextBytes(num, t);
    LenLayout(num, t);
  }

  lemma {:induction false} VarintsLayout(ns: seq<nat>)
    ensures EncodePacked(ns) == VarintList(ns)
  {
    hide EncodeVarint, EncodePacked;
    if ns == [] {
      assert EncodePacked([]) == [] by { NothingPacked(); }
    } else {
      var last := |ns| - 1;
      VarintsLayout(ns[..last]);
      PackedInOrder(ns[..last], [ns[last]], ns[last]);
      assert ns[..last] + [ns[last]] == ns;
    }
  }

  lemma NothingPacked()
    ensures EncodePacked([]) == []
  {}

  lemma {:induction false} PackedLayout(num: nat, ns: seq<nat>)
    requires 1 <= num < 15 && ValidVal(Packed(num), Nums(ns))
    ensures SlotBytes(Packed(num), Nums(ns)) == PackedField(8 * num + 2, ns)
  {
    hide SlotBytes, EmitRecord, LenField, VarintList;
    PackedBytes(num, ns);
    LenLayout(num, EncodePacked(ns));
    VarintsLayout(ns);
  }

  /** The encodings of some submessages. */
  function Bodies(sub: Schema, ms: seq<Msg>): (bodies: seq<bytes>)
    requires forall i :: 0 <= i < |ms| ==> Valid(sub, ms[i])
    ensures |bodies| == |ms|
  {
    seq(|ms|, i requires 0 <= i < |ms| => Serialize(sub, ms[i]))
  }

  lemma {:induction false} RepeatedLayout(num: nat, sub: Schema, ms: seq<Msg>)
    requires 1 <= num < 15 && ValidVal(Repeated(num, sub), Subs(ms))
    ensures SlotBytes(Repeated(num, sub), Subs(ms)) == LenFields(8 * num + 2, Bodies(sub, ms))
  {
    RepeatedUpTo(num, sub, ms, |ms|);
    SubsUpToAll(num, sub, ms);
    assert Bodies(sub, ms)[..|ms|] == Bodies(sub, ms);
  }

  lemma {:induction false} RepeatedUpTo(num: nat, sub: Schema, ms: seq<Msg>, k: nat)
    requires 1 <= num < 15 && ValidVal(Repeated(num, sub), Subs(ms)) && k <= |ms|
    ensures SubsUpTo(num, sub, ms, k) == LenFields(8 * num + 2, Bodies(sub, ms)[..k])
  {
    hide EmitRecord, LenField, Serialize;
    var bodies := Bodies(sub, ms);
    if k > 0 {
      RepeatedUpTo(num, sub, ms, k - 1);
      LenLayout(num, bodies[k - 1]);
      assert bodies[..k][..k - 1] == bodies[..k - 1];
    }
  }

  // ---- Whole messages --------------------------------------------------------------------

  /** One more slot is written behind `out`. */
  lemma NextSlot(sc: Schema, m: Msg, k: nat, out: bytes, field: bytes)
    requires Valid(sc, m) && k < |sc.slots| && out == Written(sc, m, k) && field == SlotBytes(sc.slots[k], m.vals[k])
    ensures out + field == Written(sc, m, k + 1)
  {
    hide Valid, SlotBytes, Written;
    assert [] + Written(sc, m, k) == Written(sc, m, k) && [] + Written(sc, m, k + 1) == Written(sc, m, k + 1);
    WriteSlot(sc, m, k, [], out, out + field);
  }

  lemma LastSlot(sc: Schema, m: Msg, out: bytes)
    requires Valid(sc, m) && out == Written(sc, m, |sc.slots|)
    ensures Serialize(sc, m) == out + UnknownFields(m.unknown)
  {
    hide Serialize, Written, Emit;
    assert [] + out == out && [] + Serialize(sc, m) == Serialize(sc, m);
    WriteEnd(sc, m, [], out);
    UnknownFieldsLayout(m.unknown);
  }

  /** SS_RelayChat and SS_BroadcastChat. */
  lemma {:induction false} ChatLayout(
    sender: bytes, kind: int32, msg: bytes, target: bytes, partyId: uint64, unknown: seq<Record>
  )
    requires Valid(ChatSchema(), Msg([Str(sender), Num(kind), Str(msg), Str(target), Num(partyId)], unknown))
    ensures Serialize(ChatSchema(), Msg([Str(sender), Num(kind), Str(msg), Str(target), Num(partyId)], unknown)) ==
            StringField(10, sender) + VarintField(16, kind) + StringField(26, msg) + StringField(34, target) +
            VarintField(40, partyId) + UnknownFields(unknown)
  {
    hide Valid, Serialize, SlotBytes, Written, VarintField, StringField, UnknownFields;
    var sc, m := ChatSchema(), Msg([Str(sender), Num(kind), Str(msg), Str(target), Num(partyId)], unknown);
    WriteStart(sc, m, []);
    TextLayout(1, sender);
    NumberLayout(2, Enum, kind);
    TextLayout(3, msg);
    TextLayout(4, target);
    NumberLayout(5, UInt64, partyId);
    var f1 := StringField(10, sender);
    var f2 := f1 + VarintField(16, kind);
    var f3 := f2 + StringField(26, msg);
    var f4 := f3 + StringField(34, target);
    assert [] + f1 == f1;
    NextSlot(sc, m, 0, [], f1);
    NextSlot(sc, m, 1, f1, VarintField(16, kind));
    NextSlot(sc, m, 2, f2, StringField(26, msg));
    NextSlot(sc, m, 3, f3, StringField(34, target));
    NextSlot(sc, m, 4, f4, VarintField(40, partyId));
    LastSlot(sc, m, f4 + VarintField(40, partyId));
  }
}
