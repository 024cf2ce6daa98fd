// How long a parsed message can be: parsing `s` into a message adds at most twice
// the length of `s` to its encoding, so re-serializing never meets a length limit.
module ParseGrowth {
  import opened Bytes
  import opened Varints
  import opened Wire
  import opened Codec
  import opened Projection
  import opened Runtime
  import opened Sizes
  import opened LengthLimits

  // ---- Lengths of length prefixes --------------------------------------------------

  lemma {:induction false} PrefixOfDouble(v: nat)
    ensures |EncodeVarint(2 * v)| <= |EncodeVarint(v)| + 1
  {
    if v >= 128 {
      EncodeMonotone(2 * v / 128, 2 * (v / 128) + 1);
      PrefixOfDoublePlus(v / 128);
    }
  }

  lemma {:induction false} PrefixOfDoublePlus(v: nat)
    ensures |EncodeVarint(2 * v + 1)| <= |EncodeVarint(v)| + 1
  {
    if v >= 128 {
      EncodeMonotone((2 * v + 1) / 128, 2 * (v / 128) + 1);
      PrefixOfDoublePlus(v / 128);
    }
  }

  /** The prefix of a joined payload is no longer than the two prefixes. */
  lemma PrefixOfSum(a: nat, b: nat)
    ensures |EncodeVarint(a + b)| <= |EncodeVarint(a)| + |EncodeVarint(b)|
  {
    hide EncodeVarint;
    var m := if a < b then b else a;
    EncodeMonotone(a + b, 2 * m);
    PrefixOfDouble(m);
  }

  /** A record whose payload has become at most x + 2 y bytes long, against one of x and one of y bytes. */
  lemma JoinedRecord(num: nat, z: bytes, x: nat, y: nat)
    requires |z| <= x + 2 * y
    ensures |EmitRecord(Record(num, Len(z)))| <=
            (|EncodeVarint(Tag(num, 2))| + |EncodeVarint(x)| + x) + 2 * (|EncodeVarint(y)| + y)
    ensures x == 0 ==> |EmitRecord(Record(num, Len(z)))| <= 2 * (|EncodeVarint(Tag(num, 2))| + |EncodeVarint(y)| + y)
  {
    hide EncodeVarint;
    EncodeMonotone(|z|, x + 2 * y);
    PrefixOfSum(x, 2 * y);
    PrefixOfDouble(y);
  }

  // ---- Packed lists ------------------------------------------------------------------

  lemma {:induction false} PackedConcat(xs: seq<nat>, ys: seq<nat>)
    ensures EncodePacked(xs + ys) == EncodePacked(xs) + EncodePacked(ys)
  {
    hide EncodeVarint;
    if xs == [] {
      assert xs + ys == ys;
    } else {
      assert (xs + ys)[1..] == xs[1..] + ys;
      PackedConcat(xs[1..], ys);
    }
  }

  lemma {:induction false} PackedShrinks(s: bytes)
    requires DecodePacked(s).Some?
    ensures |EncodePacked(DecodePacked(s).value)| <= |s|
  {
    hide EncodeVarint, DecodeVarint;
    if s != [] {
      var (v, n) := ReadVarint(s, 10, true).value;
      EncodeIsShortest(s, 10);
      EncodeMonotone(v, DecodeVarint(s, 10).value.0);
      PackedShrinks(s[n..]);
      var rest := DecodePacked(s[n..]).value;
      assert ([v] + rest)[1..] == rest;
    }
  }

  // ---- One record ---------------------------------------------------------------------

  /** The encoding of a slot after one more record. */
  predicate GrowsByRecord(slot: Slot, v: Val, r: Record)
    requires ValidVal(slot, v) && RecordOk(r) && Accepts(slot, r.num, WireType(r.body))
  {
    SlotStep(slot, v, r).Some? ==>
          |SlotBytes(slot, SlotStep(slot, v, r).value)| <= |SlotBytes(slot, v)| + 2 * |EmitRecord(r)|
  }

  lemma NumberGrows(slot: Slot, v: Val, r: Record)
    requires slot.Number? && ValidVal(slot, v) && RecordOk(r) && Accepts(slot, r.num, WireType(r.body))
    ensures GrowsByRecord(slot, v, r)
  {
    hide SlotBytes, EncodeVarint, EncodeNumber, DecodeNumber;
    var n := DecodeNumber(slot.ty, r.body);
    NumberBytes(slot.num, slot.ty, n);
    LongNumber(slot.ty, r.body);
  }

  lemma LongNumber(ty: NumberType, p: Payload)
    requires PayloadOk(p) && WireType(p) == NumberWire(ty)
    ensures |EmitBody(EncodeNumber(ty, DecodeNumber(ty, p)))| <= 2 * |EmitBody(p)|
  {
    hide EncodeVarint;
    ReencodedNumber(ty, p);
    if Signed(ty) {
      var n := DecodeNumber(ty, p);
      Powers();
      if n < 0 {
        Fits64(n + TWO_64);
        EncodeMonotone(p.v % 0x1_0000_0000, p.v);
        SizeBound(p.v % 0x1_0000_0000, 4);
      } else {
        EncodeMonotone(n, p.v);
      }
    }
  }

  lemma PackedGrows(slot: Slot, v: Val, r: Record)
    requires slot.Packed? && ValidVal(slot, v) && RecordOk(r) && Accepts(slot, r.num, WireType(r.body))
    ensures GrowsByRecord(slot, v, r)
  {
    hide SlotBytes, EncodeVarint, EncodePacked, DecodePacked;
    if SlotStep(slot, v, r).Some? {
      var xs := if r.body.Varint? then [r.body.v] else DecodePacked(r.body.s).value;
      var all := v.ns + xs;
      PackedConcat(v.ns, xs);
      PackedBytes(slot.num, v.ns);
      PackedBytes(slot.num, all);
      if r.body.Varint? { OnePacked(r.body.v); } else { PackedShrinks(r.body.s); }
      TagLengths(slot.num);
      PackedRecordGrows(slot.num, v.ns, xs, r);
    }
  }

  lemma OnePacked(v: nat)
    ensures EncodePacked([v]) == EncodeVarint(v)
  {
    assert [v][1..] == [];
  }

  /** All tags of one field number have the same length. */
  lemma TagLengths(num: nat)
    ensures |EncodeVarint(Tag(num, 0))| == |EncodeVarint(Tag(num, 2))| >= 1
  {
    assert Tag(num, 0) / 128 == Tag(num, 2) / 128 by {
      assert num * 8 / 128 == num / 16;
    }
  }

  lemma PackedRecordGrows(num: nat, ns: seq<nat>, xs: seq<nat>, r: Record)
    requires r.num == num && |EncodePacked(xs)| <= (if r.body.Len? then |r.body.s| else |EmitBody(r.body)|)
    requires r.body.Len? || (r.body.Varint? && EncodePacked(xs) == EncodeVarint(r.body.v))
    requires EncodePacked(ns + xs) == EncodePacked(ns) + EncodePacked(xs)
    requires |EncodeVarint(Tag(num, 0))| == |EncodeVarint(Tag(num, 2))| >= 1
    ensures |EmitRecord(Record(num, Len(EncodePacked(ns + xs))))| <=
            (if ns == [] then 0 else |EmitRecord(Record(num, Len(EncodePacked(ns))))|) + 2 * |EmitRecord(r)|
  {
    hide EncodeVarint;
    var x, y := |EncodePacked(ns)|, |EncodePacked(xs)|;
    var bound := if r.body.Len? then |r.body.s| else y;
    EncodeMonotone(y, bound);
    PrefixOfSum(x, y);
    if r.body.Varint? { PrefixShort(y); }
  }

  lemma PrefixShort(y: nat)
    requires y >= 1
    ensures |EncodeVarint(y)| <= y
    decreases y
  {
    if y >= 128 { PrefixShort(y / 128); }
  }

  // ---- Submessages and whole inputs ------------------------------------------------------

  lemma {:induction false} StepGrows(slot: Slot, v: Val, r: Record)
    requires ValidVal(slot, v) && RecordOk(r) && Accepts(slot, r.num, WireType(r.body))
    ensures GrowsByRecord(slot, v, r)
    decreases slot, 0
  {
    hide SlotBytes, SlotStep, EmitRecord;
    match slot
    case Number(_, _) => NumberGrows(slot, v, r);
    case Text(_) => TextGrows(slot, v, r);
    case Packed(_) => PackedGrows(slot, v, r);
    case Repeated(_, _) => RepeatedGrows(slot, v, r);
    case Choice(_) => ChoiceGrows(slot, v, r);
  }

  lemma TextGrows(slot: Slot, v: Val, r: Record)
    requires slot.Text? && ValidVal(slot, v) && RecordOk(r) && Accepts(slot, r.num, WireType(r.body))
    ensures GrowsByRecord(slot, v, r)
  {
    hide SlotBytes, EncodeVarint;
    TextBytes(slot.num, r.body.s);
  }

  lemma {:induction false} RepeatedGrows(slot: Slot, v: Val, r: Record)
    requires slot.Repeated? && ValidVal(slot, v) && RecordOk(r) && Accepts(slot, r.num, WireType(r.body))
    ensures GrowsByRecord(slot, v, r)
    decreases slot, 0, 0
  {
    hide EncodeVarint, Serialize, Parse, EmitRecord;
    var base := Default(slot.sub);
    var parsed := Parse(slot.sub, base, r.body.s);
    if parsed.Some? {
      MessageGrows(slot.sub, base, r.body.s);
      DefaultIsEmpty(slot.sub);
      var z := Serialize(slot.sub, parsed.value);
      JoinedRecord(slot.num, z, 0, |r.body.s|);
      AppendedBytes(slot, v, parsed.value);
      RecordLength(r);
    }
  }

  lemma RecordLength(r: Record)
    requires r.body.Len?
    ensures |EmitRecord(r)| == |EncodeVarint(Tag(r.num, 2))| + |EncodeVarint(|r.body.s|)| + |r.body.s|
  {}

  lemma AppendedBytes(slot: Slot, v: Val, x: Msg)
    requires slot.Repeated? && ValidVal(slot, v) && Valid(slot.sub, x)
    ensures ValidVal(slot, Subs(v.ms + [x]))
    ensures |SlotBytes(slot, Subs(v.ms + [x]))| ==
            |SlotBytes(slot, v)| + |EmitRecord(Record(slot.num, Len(Serialize(slot.sub, x))))|
  {
    hide EmitRecord, Serialize;
    var last := Record(slot.num, Len(Serialize(slot.sub, x)));
    assert SlotRecords(slot, Subs(v.ms + [x])) == SlotRecords(slot, v) + [last];
    EmitConcat(SlotRecords(slot, v), [last]);
    EmitOne(last);
  }

  lemma DefaultIsEmpty(sc: Schema)
    ensures Serialize(sc, Default(sc)) == []
  {
    DefaultUpTo(sc, |sc.slots|);
    assert Records(sc, Default(sc)) == [];
  }

  lemma {:induction false} DefaultUpTo(sc: Schema, k: nat)
    requires k <= |sc.slots|
    ensures KnownUpTo(sc, Default(sc), k) == []
  {
    if k > 0 { DefaultUpTo(sc, k - 1); }
  }

  lemma {:induction false} ChoiceGrows(slot: Slot, v: Val, r: Record)
    requires slot.Choice? && ValidVal(slot, v) && RecordOk(r) && Accepts(slot, r.num, WireType(r.body))
    ensures GrowsByRecord(slot, v, r)
    decreases slot, 0, 0
  {
    hide EncodeVarint, Serialize, Parse, EmitRecord, SlotBytes;
    var cases := slot.cases;
    var j := CaseOf(cases, r.num);
    var base := CaseBase(cases, v, j);
    var parsed := Parse(cases[j].sub, base, r.body.s);
    if parsed.Some? {
      MessageGrows(cases[j].sub, base, r.body.s);
      DefaultIsEmpty(cases[j].sub);
      var z := Serialize(cases[j].sub, parsed.value);
      JoinedRecord(r.num, z, |Serialize(cases[j].sub, base)|, |r.body.s|);
      ChosenBytes(cases, v);
      ChosenBytes(cases, Chosen(j, parsed.value));
      RecordLength(r);
      if v.Chosen? && v.i == j { RecordLength(Record(r.num, Len(Serialize(cases[j].sub, v.m)))); }
    }
  }

  /** Replacing one slot changes the encoding by the difference of the slots. */
  lemma {:induction false} PutSize(sc: Schema, m: Msg, i: nat, v: Val, k: nat)
    requires Valid(sc, m) && i < |sc.slots| && ValidVal(sc.slots[i], v) && k <= |sc.slots|
    ensures Valid(sc, Put(m, i, v))
    ensures |Written(sc, Put(m, i, v), k)| + (if i < k then |SlotBytes(sc.slots[i], m.vals[i])| else 0) ==
            |Written(sc, m, k)| + (if i < k then |SlotBytes(sc.slots[i], v)| else 0)
  {
    hide SlotBytes, Written;
    if k == 0 {
      WriteStart(sc, m, []);
      WriteStart(sc, Put(m, i, v), []);
    } else {
      PutSize(sc, m, i, v, k - 1);
      SizeStep(sc, m, k - 1);
      SizeStep(sc, Put(m, i, v), k - 1);
    }
  }

  lemma {:induction false} RecordGrows(sc: Schema, m: Msg, r: Record)
    requires Valid(sc, m) && RecordOk(r) && Apply(sc, m, r).Some?
    ensures |Serialize(sc, Apply(sc, m, r).value)| <= |Serialize(sc, m)| + 2 * |EmitRecord(r)|
    decreases sc, 0
  {
    hide SlotBytes, Written, Serialize, SlotStep, EmitRecord, Emit;
    SizeEnd(sc, m);
    match Find(sc, r)
    case None =>
      EmitConcat(m.unknown, [r]);
      EmitOne(r);
      SizeEnd(sc, Apply(sc, m, r).value);
      UnknownOnly(sc, m, m.unknown + [r], |sc.slots|);
    case Some(i) =>
      StepGrows(sc.slots[i], m.vals[i], r);
      var v := SlotStep(sc.slots[i], m.vals[i], r).value;
      PutSize(sc, m, i, v, |sc.slots|);
      SizeEnd(sc, Put(m, i, v));
  }

  lemma {:induction false} UnknownOnly(sc: Schema, m: Msg, rs: seq<Record>, k: nat)
    requires Valid(sc, m) && Valid(sc, m.(unknown := rs)) && k <= |sc.slots|
    ensures Written(sc, m.(unknown := rs), k) == Written(sc, m, k)
  {
    hide Valid, SlotRecords, Emit;
    UnknownOnlyRecords(sc, m, rs, k);
  }

  lemma {:induction false} UnknownOnlyRecords(sc: Schema, m: Msg, rs: seq<Record>, k: nat)
    requires Valid(sc, m) && Valid(sc, m.(unknown := rs)) && k <= |sc.slots|
    ensures KnownUpTo(sc, m.(unknown := rs), k) == KnownUpTo(sc, m, k)
  {
    hide SlotRecords;
    if k > 0 { UnknownOnlyRecords(sc, m, rs, k - 1); }
  }

  lemma {:induction false} RecordsGrow(sc: Schema, m: Msg, rs: seq<Record>)
    requires Valid(sc, m) && RecordsOk(rs) && ApplyAll(sc, m, rs).Some?
    ensures |Serialize(sc, ApplyAll(sc, m, rs).value)| <= |Serialize(sc, m)| + 2 * |Emit(rs)|
    decreases sc, 1, |rs|
  {
    hide Serialize, EmitRecord, Apply, Valid;
    if rs != [] {
      RecordGrows(sc, m, rs[0]);
      RecordsGrow(sc, Apply(sc, m, rs[0]).value, rs[1..]);
    }
  }

  /** Parsing `s` into any message adds at most twice the length of `s` to its encoding. */
  lemma {:induction false} MessageGrows(sc: Schema, m: Msg, s: bytes)
    requires Valid(sc, m) && Parse(sc, m, s).Some?
    ensures |Serialize(sc, Parse(sc, m, s).value)| <= |Serialize(sc, m)| + 2 * |s|
    decreases sc, 2
  {
    hide Serialize, ApplyAll, Valid;
    TokensOk(s);
    RecordsGrow(sc, m, Tokenise(s).value);
    TokeniseShrinks(s);
  }

  /**
   * Unknown fields survive and re-serialization is idempotent: the unmatched records of any parseable
   * input of at most 1 GB are kept in wire order and written after the known fields, and what is written
   * is at most twice as long and parses back to the same message, hence serializes to the same bytes.
   */
  lemma {:induction false} ReserializeIsStable(sc: Schema, s: bytes)
    requires SchemaOk(sc) && Parse(sc, Default(sc), s).Some? && 2 * |s| <= MAX_LEN
    ensures var m := Parse(sc, Default(sc), s).value;
            && m.unknown == Select(sc, Tokenise(s).value, None)
            && Serialize(sc, m) == Emit(KnownUpTo(sc, m, |sc.slots|)) + Emit(Select(sc, Tokenise(s).value, None))
            && |Serialize(sc, m)| <= 2 * |s|
            && Parse(sc, Default(sc), Serialize(sc, m)) == Some(m)
  {
    hide Serialize, Parse, SchemaOk, KnownUpTo;
    MessageGrows(sc, Default(sc), s);
    DefaultIsEmpty(sc);
    SmallFits(sc, Parse(sc, Default(sc), s).value, MAX_LEN);
    ReserializeIff(sc, s);
  }
}
