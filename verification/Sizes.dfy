// How long messages can get: lengths that always fit the runtime's limits, the
// largest inventories and object lists that still fit a frame, and how much
// re-encoding a parsed message can add.
module Sizes {
  import opened Bytes
  import opened Varints
  import opened Wire
  import opened Codec
  import opened Projection
  import opened Runtime
  import opened Messages

  // ---- Parts are no longer than the whole -----------------------------------------

  lemma {:induction false} SlotWithin(sc: Schema, m: Msg, i: nat, k: nat)
    requires Valid(sc, m) && i < k <= |sc.slots|
    ensures |SlotBytes(sc.slots[i], m.vals[i])| <= |Written(sc, m, k)|
  {
    hide SlotBytes, Written;
    SizeStep(sc, m, k - 1);
    if i < k - 1 { SlotWithin(sc, m, i, k - 1); }
  }

  lemma {:induction false} RecordWithin(rs: seq<Record>, j: nat)
    requires j < |rs|
    ensures |EmitRecord(rs[j])| <= |Emit(rs)|
  {
    hide EmitRecord;
    if j > 0 { RecordWithin(rs[1..], j - 1); }
  }

  lemma PayloadWithin(num: nat, s: bytes)
    ensures |s| <= |EmitRecord(Record(num, Len(s)))|
  {}

  /** A message whose encoding is at most `limit` bytes long has no longer part, at any level. */
  lemma {:induction false} SmallFits(sc: Schema, m: Msg, limit: nat)
    requires Valid(sc, m) && |Serialize(sc, m)| <= limit
    ensures Fits(sc, m, limit)
    decreases sc
  {
    hide SlotBytes, Written, ValidVal, FitsVal, Serialize;
    forall i | 0 <= i < |sc.slots|
      ensures FitsVal(sc.slots[i], m.vals[i], limit)
    {
      SizeEnd(sc, m);
      SlotWithin(sc, m, i, |sc.slots|);
      SmallSlotFits(sc.slots[i], m.vals[i], limit);
    }
  }

  lemma {:induction false} SmallSlotFits(slot: Slot, v: Val, limit: nat)
    requires ValidVal(slot, v) && |SlotBytes(slot, v)| <= limit
    ensures FitsVal(slot, v, limit)
    decreases slot
  {
    hide EmitRecord, Serialize, Fits;
    var rs := SlotRecords(slot, v);
    match slot
    case Number(_, _) =>
    case Text(num) => if v.s != [] { RecordWithin(rs, 0); PayloadWithin(num, v.s); }
    case Packed(num) =>
      if v.ns != [] { RecordWithin(rs, 0); PayloadWithin(num, EncodePacked(v.ns)); }
    case Repeated(num, sub) =>
      forall i | 0 <= i < |v.ms|
        ensures Fits(sub, v.ms[i], limit) && |Serialize(sub, v.ms[i])| <= limit
      {
        RecordWithin(rs, i);
        PayloadWithin(num, Serialize(sub, v.ms[i]));
        SmallFits(sub, v.ms[i], limit);
      }
    case Choice(cases) =>
      if v.Chosen? {
        RecordWithin(rs, 0);
        PayloadWithin(cases[v.i].num, Serialize(cases[v.i].sub, v.m));
        SmallFits(cases[v.i].sub, v.m, limit);
      }
  }

  // ---- Messages that always fit a frame ----------------------------------------------

  lemma NumberBound(num: nat, ty: NumberType, n: int)
    requires InRange(ty, n) && num < 16
    ensures |SlotBytes(Number(num, ty), Num(n))| <= 11
  {
    hide EncodeVarint, SlotBytes;
    NumberSlotSize(num, ty, n);
    match EncodeNumber(ty, n)
    case Varint(v) => Fits64(v);
    case _ =>
  }

  /** A length-delimited record with a short payload. */
  lemma ShortRecord(num: nat, s: bytes)
    requires 1 <= num < 2048 && |s| < 16384
    ensures |EmitRecord(Record(num, Len(s)))| ==
            (if num < 16 then 1 else 2) + (if |s| < 128 then 1 else 2) + |s|
  {
    TagSize(num, 2);
    Powers();
    SizeBound(|s|, 1);
    SizeBound(|s|, 2);
  }

  lemma {:induction false} TripleBound(m: Msg)
    requires Valid(TripleSchema(), m) && m.unknown == []
    ensures |Serialize(TripleSchema(), m)| <= 33
  {
    hide Serialize, SlotBytes, Written;
    var sc := TripleSchema();
    forall i | 0 <= i < 3 ensures |SlotBytes(sc.slots[i], m.vals[i])| <= 11 {
      NumberBound(i + 1, Int32, m.vals[i].n);
    }
    assert |Written(sc, m, 0)| == 0 by { WriteStart(sc, m, []); }
    SizeStep(sc, m, 0);
    SizeStep(sc, m, 1);
    SizeStep(sc, m, 2);
    SizeEnd(sc, m);
  }

  predicate CleanTriples(v: Val) {
    match v
    case Subs(ms) => forall i :: 0 <= i < |ms| ==> ms[i].unknown == []
    case Chosen(_, m) => m.unknown == []
    case _ => true
  }

  lemma {:induction false} TriplesBound(ms: seq<Msg>, k: nat)
    requires ValidVal(Repeated(1, TripleSchema()), Subs(ms)) && CleanTriples(Subs(ms)) && k <= |ms|
    ensures |SubsUpTo(1, TripleSchema(), ms, k)| <= 35 * k
  {
    hide Serialize, EmitRecord;
    if k > 0 {
      TriplesBound(ms, k - 1);
      TripleBound(ms[k - 1]);
      ShortRecord(1, Serialize(TripleSchema(), ms[k - 1]));
    }
  }

  lemma ChosenTripleBound(num: nat, v: Val)
    requires 1 <= num < 16 && ValidVal(Choice([Case(num, TripleSchema())]), v) && CleanTriples(v)
    ensures |SlotBytes(Choice([Case(num, TripleSchema())]), v)| <= 35
  {
    hide Serialize, EmitRecord, SlotBytes;
    ChosenBytes([Case(num, TripleSchema())], v);
    if v.Chosen? {
      TripleBound(v.m);
      ShortRecord(num, Serialize(TripleSchema(), v.m));
    }
  }

  /** Up to 1869 items and three equipped ones always fit the 16-bit frame size, if nothing unknown is carried along. */
  lemma {:induction false} InventoryFits(m: Msg)
    requires Valid(InventoryDataSchema(), m) && m.unknown == [] && (forall i :: 0 <= i < 4 ==> CleanTriples(m.vals[i]))
    ensures m.vals[0].Subs? && |Serialize(InventoryDataSchema(), m)| <= 35 * |m.vals[0].ms| + 105
    ensures |m.vals[0].ms| <= 1869 ==> |Serialize(InventoryDataSchema(), m)| <= 65531
  {
    hide Serialize, SlotBytes, ValidVal, Valid;
    InventoryTotal(m);
    TriplesBound(m.vals[0].ms, |m.vals[0].ms|);
    SubsUpToAll(1, TripleSchema(), m.vals[0].ms);
    ChosenTripleBound(2, m.vals[1]);
    ChosenTripleBound(3, m.vals[2]);
    ChosenTripleBound(4, m.vals[3]);
  }

  lemma InventoryTotal(m: Msg)
    requires Valid(InventoryDataSchema(), m) && m.unknown == []
    ensures |m.vals| == 4 && forall i :: 0 <= i < 4 ==> ValidVal(InventoryDataSchema().slots[i], m.vals[i])
    ensures m.vals[0].Subs?
    ensures var slots := InventoryDataSchema().slots;
            |Serialize(InventoryDataSchema(), m)| ==
            |SlotBytes(slots[0], m.vals[0])| + |SlotBytes(slots[1], m.vals[1])| +
            |SlotBytes(slots[2], m.vals[2])| + |SlotBytes(slots[3], m.vals[3])|
  {
    hide Serialize, SlotBytes, Written;
    var sc := InventoryDataSchema();
    assert forall i :: 0 <= i < 4 ==> ValidVal(sc.slots[i], m.vals[i]);
    WriteStart(sc, m, []);
    SizeStep(sc, m, 0);
    SizeStep(sc, m, 1);
    SizeStep(sc, m, 2);
    SizeStep(sc, m, 3);
    SizeEnd(sc, m);
  }

  /** The bound is reached by every inventory of negative numbers, so with 1870 items it no longer fits. */
  lemma {:induction false} FullInventorySize(n: nat)
    ensures Valid(InventoryDataSchema(), FullInventory(n)) && FullInventory(n).unknown == []
    ensures |Serialize(InventoryDataSchema(), FullInventory(n))| == 35 * n + 105
  {
    hide Serialize, SlotBytes, Valid, FullTriple;
    var sc, m := InventoryDataSchema(), FullInventory(n);
    FullTripleSize();
    FullItems(n, n);
    FullInventoryValid(n);
    InventoryTotal(m);
    SubsUpToAll(1, TripleSchema(), m.vals[0].ms);
    FullEquipped(2);
    FullEquipped(3);
    FullEquipped(4);
  }

  lemma FullInventoryValid(n: nat)
    ensures Valid(InventoryDataSchema(), FullInventory(n))
  {
    hide FullTriple;
    FullTripleSize();
    assert forall i :: 0 <= i < 4 ==> ValidVal(InventoryDataSchema().slots[i], FullInventory(n).vals[i]);
  }

  lemma FullEquipped(num: nat)
    requires 1 <= num < 16
    ensures ValidVal(Choice([Case(num, TripleSchema())]), Chosen(0, FullTriple()))
    ensures |SlotBytes(Choice([Case(num, TripleSchema())]), Chosen(0, FullTriple()))| == 35
  {
    hide Serialize, EmitRecord, SlotBytes, FullTriple, Valid;
    FullTripleSize();
    ChosenBytes([Case(num, TripleSchema())], Chosen(0, FullTriple()));
    ShortRecord(num, Serialize(TripleSchema(), FullTriple()));
  }

  function FullTriple(): Msg {
    Msg([Num(-1), Num(-1), Num(-1)], [])
  }

  function FullInventory(n: nat): Msg {
    Msg([Subs(seq(n, _ => FullTriple())), Chosen(0, FullTriple()), Chosen(0, FullTriple()), Chosen(0, FullTriple())],
      [])
  }

  lemma FullTripleSize()
    ensures Valid(TripleSchema(), FullTriple()) && FullTriple().unknown == []
    ensures |Serialize(TripleSchema(), FullTriple())| == 33
  {
    hide Serialize, SlotBytes, Written;
    var sc, m := TripleSchema(), FullTriple();
    forall i | 0 <= i < 3 ensures |SlotBytes(sc.slots[i], m.vals[i])| == 11 {
      NumberSlotSize(i + 1, Int32, -1);
      SizeBound(TWO_64 - 1, 9);
      Fits64(TWO_64 - 1);
      Powers();
    }
    assert |Written(sc, m, 0)| == 0 by { WriteStart(sc, m, []); }
    SizeStep(sc, m, 0);
    SizeStep(sc, m, 1);
    SizeStep(sc, m, 2);
    SizeEnd(sc, m);
  }

  lemma {:induction false} FullItems(n: nat, k: nat)
    requires k <= n
    ensures ValidVal(Repeated(1, TripleSchema()), FullInventory(n).vals[0])
    ensures |SubsUpTo(1, TripleSchema(), FullInventory(n).vals[0].ms, k)| == 35 * k
  {
    hide Serialize, EmitRecord, FullTriple, Valid;
    FullTripleSize();
    if k > 0 {
      FullItems(n, k - 1);
      ShortRecord(1, Serialize(TripleSchema(), FullTriple()));
    }
  }

  lemma TextBound(num: nat, t: bytes)
    requires num < 16 && |t| <= 127
    ensures |SlotBytes(Text(num), Str(t))| <= 129
  {
    hide SlotBytes;
    TextSlotSize(num, t);
  }

  predicate CleanExtra(v: Val) {
    v.Chosen? ==> v.m.unknown == []
  }

  lemma ExtraBound(v: Val)
    requires ValidVal(Choice(ExtraCases()), v) && CleanExtra(v)
    ensures |SlotBytes(Choice(ExtraCases()), v)| <= 36
  {
    hide Serialize, EmitRecord, SlotBytes;
    ChosenBytes(ExtraCases(), v);
    if v.Chosen? {
      if v.i == 0 { TripleBound(v.m); } else { MonsterBound(v.m); }
      ShortRecord(ExtraCases()[v.i].num, Serialize(ExtraCases()[v.i].sub, v.m));
    }
  }

  lemma MonsterBound(m: Msg)
    requires Valid(MonsterExtraSchema(), m) && m.unknown == []
    ensures |Serialize(MonsterExtraSchema(), m)| <= 11
  {
    hide Serialize, SlotBytes, Written;
    var sc := MonsterExtraSchema();
    NumberBound(1, Int32, m.vals[0].n);
    assert |Written(sc, m, 0)| == 0 by { WriteStart(sc, m, []); }
    SizeStep(sc, m, 0);
    SizeEnd(sc, m);
  }

  /** An object with a name of at most 127 bytes and nothing unknown at either level. */
  predicate PlainObject(m: Msg) {
    |m.vals| == 12 && m.unknown == [] && m.vals[4].Str? && |m.vals[4].s| <= 127 && CleanExtra(m.vals[11])
  }

  lemma {:induction false} ObjectScalars(m: Msg, k: nat)
    requires Valid(ObjectInfoSchema(), m) && PlainObject(m) && k <= 11
    ensures |Written(ObjectInfoSchema(), m, k)| <= 11 * k + if k > 4 then 118 else 0
  {
    hide Serialize, SlotBytes, Written;
    var sc := ObjectInfoSchema();
    if k == 0 {
      assert |Written(sc, m, 0)| == 0 by { WriteStart(sc, m, []); }
    } else {
      ObjectScalars(m, k - 1);
      SizeStep(sc, m, k - 1);
      if k == 5 { TextBound(5, m.vals[4].s); } else { ObjectNumber(m, k - 1); }
    }
  }

  lemma ObjectNumber(m: Msg, i: nat)
    requires Valid(ObjectInfoSchema(), m) && i < 11 && i != 4
    ensures |SlotBytes(ObjectInfoSchema().slots[i], m.vals[i])| <= 11
  {
    hide SlotBytes;
    NumberBound(i + 1, if i == 0 then UInt64 else if i < 4 then Enum else Int32, m.vals[i].n);
  }

  lemma {:induction false} ObjectInfoBound(m: Msg)
    requires Valid(ObjectInfoSchema(), m) && PlainObject(m)
    ensures |Serialize(ObjectInfoSchema(), m)| <= 275
  {
    hide Serialize, SlotBytes, Written;
    ObjectScalars(m, 11);
    ExtraBound(m.vals[11]);
    SizeStep(ObjectInfoSchema(), m, 11);
    SizeEnd(ObjectInfoSchema(), m);
  }

  lemma {:induction false} ObjectsBound(ms: seq<Msg>, k: nat)
    requires ValidVal(Repeated(1, ObjectInfoSchema()), Subs(ms)) && (forall i :: 0 <= i < |ms| ==> PlainObject(ms[i]))
    requires k <= |ms|
    ensures |SubsUpTo(1, ObjectInfoSchema(), ms, k)| <= 278 * k
  {
    hide Serialize, EmitRecord, Valid;
    if k > 0 {
      assert Valid(ObjectInfoSchema(), ms[k - 1]);
      ObjectsBound(ms, k - 1);
      ObjectInfoBound(ms[k - 1]);
      ShortRecord(1, Serialize(ObjectInfoSchema(), ms[k - 1]));
    }
  }

  /** S_AddObject with up to 235 plain objects always fits the 16-bit frame size. */
  lemma {:induction false} AddObjectFits(m: Msg)
    requires Valid(AddObjectSchema(), m) && m.unknown == [] && m.vals[0].Subs? && |m.vals[0].ms| <= 235
    requires forall i :: 0 <= i < |m.vals[0].ms| ==> PlainObject(m.vals[0].ms[i])
    ensures |Serialize(AddObjectSchema(), m)| <= 65531
  {
    hide Serialize, SlotBytes, Written;
    var sc := AddObjectSchema();
    assert ValidVal(sc.slots[0], m.vals[0]);
    ObjectsBound(m.vals[0].ms, |m.vals[0].ms|);
    SubsUpToAll(1, ObjectInfoSchema(), m.vals[0].ms);
    assert |Written(sc, m, 0)| == 0 by { WriteStart(sc, m, []); }
    SizeStep(sc, m, 0);
    SizeEnd(sc, m);
  }

  /** All fields at their longest: the largest id, negative numbers, a name of 127 letters and a full player. */
  function FullObject(): Msg {
    Msg([Num(TWO_64 - 1), Num(-1), Num(-1), Num(-1), Str(seq(127, _ => 65)), Num(-1), Num(-1),
         Num(-1), Num(-1), Num(-1), Num(-1), Chosen(0, FullTriple())], [])
  }

  lemma FullNumber(num: nat, ty: NumberType, n: int)
    requires num < 16 && ((ty == UInt64 && n == TWO_64 - 1) || (Signed(ty) && n == -1))
    ensures |SlotBytes(Number(num, ty), Num(n))| == 11
  {
    hide EncodeVarint, SlotBytes;
    NumberSlotSize(num, ty, n);
    SizeBound(TWO_64 - 1, 9);
    Fits64(TWO_64 - 1);
    Powers();
  }

  lemma FullObjectSlot(i: nat)
    requires i < 12
    ensures ValidVal(ObjectInfoSchema().slots[i], FullObject().vals[i])
  {
    hide FullTriple;
    FullTripleSize();
  }

  lemma FullObjectValid()
    ensures Valid(ObjectInfoSchema(), FullObject()) && PlainObject(FullObject())
  {
    hide FullTriple, ValidVal, RecordsOk;
    FullTripleSize();
    assert RecordsOk([]) by { NoRecords(); }
    forall i | 0 <= i < 12 ensures ValidVal(ObjectInfoSchema().slots[i], FullObject().vals[i]) { FullObjectSlot(i); }
  }

  lemma NoRecords()
    ensures RecordsOk([])
  {}

  lemma {:induction false} FullObjectUpTo(k: nat)
    requires k <= 11 && Valid(ObjectInfoSchema(), FullObject())
    ensures |Written(ObjectInfoSchema(), FullObject(), k)| == 11 * k + if k > 4 then 118 else 0
  {
    hide Written, SlotBytes, Valid, Serialize;
    if k == 0 {
      WriteStart(ObjectInfoSchema(), FullObject(), []);
    } else {
      FullObjectUpTo(k - 1);
      SizeStep(ObjectInfoSchema(), FullObject(), k - 1);
      if k == 5 {
        TextSlotSize(5, FullObject().vals[4].s);
      } else {
        FullNumber(k, if k == 1 then UInt64 else if k < 5 then Enum else Int32, FullObject().vals[k - 1].n);
      }
    }
  }

  lemma FullObjectSize()
    ensures Valid(ObjectInfoSchema(), FullObject()) && PlainObject(FullObject())
    ensures |Serialize(ObjectInfoSchema(), FullObject())| == 275
  {
    hide Written, SlotBytes, Valid, Serialize, EmitRecord, FullTriple;
    FullObjectValid();
    FullObjectUpTo(11);
    FullTripleSize();
    ChosenBytes(ExtraCases(), Chosen(0, FullTriple()));
    ShortRecord(100, Serialize(TripleSchema(), FullTriple()));
    SizeStep(ObjectInfoSchema(), FullObject(), 11);
    SizeEnd(ObjectInfoSchema(), FullObject());
  }

  function FullObjects(n: nat): Msg {
    Msg([Subs(seq(n, _ => FullObject()))], [])
  }

  lemma {:induction false} FullObjectsUpTo(n: nat, k: nat)
    requires k <= n
    ensures ValidVal(Repeated(1, ObjectInfoSchema()), FullObjects(n).vals[0])
    ensures |SubsUpTo(1, ObjectInfoSchema(), FullObjects(n).vals[0].ms, k)| == 278 * k
  {
    hide Serialize, EmitRecord, FullObject, Valid;
    FullObjectSize();
    if k > 0 {
      FullObjectsUpTo(n, k - 1);
      ShortRecord(1, Serialize(ObjectInfoSchema(), FullObject()));
    }
  }

  lemma FullObjectsValid(n: nat)
    ensures Valid(AddObjectSchema(), FullObjects(n)) && ValidVal(AddObjectSchema().slots[0], FullObjects(n).vals[0])
  {
    hide FullObject, ObjectInfoSchema;
    FullObjectsUpTo(n, 0);
  }

  /** The bound for object lists is reached too: 236 such objects take 65608 bytes and no longer fit. */
  lemma {:induction false} FullObjectsSize(n: nat)
    ensures Valid(AddObjectSchema(), FullObjects(n)) && FullObjects(n).unknown == []
    ensures forall i :: 0 <= i < n ==> PlainObject(FullObjects(n).vals[0].ms[i])
    ensures |Serialize(AddObjectSchema(), FullObjects(n))| == 278 * n
  {
    hide Serialize, SlotBytes, Written, FullObject, PlainObject, Valid, ObjectInfoSchema;
    var sc, m := AddObjectSchema(), FullObjects(n);
    FullObjectSize();
    FullObjectsUpTo(n, n);
    FullObjectsValid(n);
    SubsUpToAll(1, ObjectInfoSchema(), m.vals[0].ms);
    WriteStart(sc, m, []);
    SizeStep(sc, m, 0);
    SizeEnd(sc, m);
  }

  // ---- Re-encoding what was parsed --------------------------------------------------------

  /** Bytes that one value can gain: a 5-byte varint can mean a negative int32 or enum, which is written in 10. */
  function Growth(slot: Slot): nat {
    if slot.Number? && Signed(slot.ty) then 5 else 0
  }

  predicate Scalar(slot: Slot) {
    slot.Number? || slot.Text?
  }

  lemma ReencodedNumber(ty: NumberType, p: Payload)
    requires PayloadOk(p) && WireType(p) == NumberWire(ty)
    ensures |EmitBody(EncodeNumber(ty, DecodeNumber(ty, p)))| <= |EmitBody(p)| + if Signed(ty) then 5 else 0
  {
    hide EncodeVarint;
    if ty != Float32 {
      var n := DecodeNumber(ty, p);
      EncodeMonotone(p.v % 0x1_0000_0000, p.v);
      if Signed(ty) && n < 0 {
        Fits64(n + TWO_64);
        Powers();
        SizeBound(p.v % 0x1_0000_0000, 4);
      }
    }
  }

  lemma ReencodedStep(slot: Slot, v: Val, r: Record)
    requires Scalar(slot) && ValidVal(slot, v) && RecordOk(r) && Accepts(slot, r.num, WireType(r.body))
    requires SlotStep(slot, v, r).Some?
    ensures |SlotBytes(slot, SlotStep(slot, v, r).value)| <= |EmitRecord(r)| + Growth(slot)
  {
    hide EncodeVarint, SlotBytes, EncodeNumber, DecodeNumber;
    match slot
    case Number(num, ty) =>
      ReencodedNumber(ty, r.body);
      NumberBytes(num, ty, DecodeNumber(ty, r.body));
    case Text(num) => TextBytes(num, r.body.s);
  }

  /** Only the last record of a scalar or string field leaves a trace. */
  lemma {:induction false} ReencodedFold(slot: Slot, v: Val, rs: seq<Record>)
    requires Scalar(slot) && ValidVal(slot, v) && AllAccepted(slot, rs) && rs != []
    requires SlotFold(slot, v, rs).Some?
    ensures |SlotBytes(slot, SlotFold(slot, v, rs).value)| <= |Emit(rs)| + Growth(slot)
    decreases |rs|
  {
    hide SlotBytes, EmitRecord, SlotStep;
    if |rs| == 1 {
      assert rs[1..] == [];
      ReencodedStep(slot, v, rs[0]);
    } else {
      ReencodedFold(slot, SlotStep(slot, v, rs[0]).value, rs[1..]);
    }
  }

  /** The bytes of the records that go to the first n slots. */
  function Selected(sc: Schema, rs: seq<Record>, n: nat): nat {
    if n == 0 then 0 else Selected(sc, rs, n - 1) + |Emit(Select(sc, rs, Some(n - 1)))|
  }

  lemma {:induction false} SelectedStep(sc: Schema, rs: seq<Record>, n: nat)
    requires rs != []
    ensures Selected(sc, rs, n) ==
            Selected(sc, rs[1..], n) +
            if Find(sc, rs[0]).Some? && Find(sc, rs[0]).value < n then |EmitRecord(rs[0])| else 0
  {
    hide EmitRecord, Find;
    if n > 0 {
      SelectedStep(sc, rs, n - 1);
      var sel := Select(sc, rs[1..], Some(n - 1));
      assert ([rs[0]] + sel)[1..] == sel;
    }
  }

  lemma {:induction false} SelectedWithin(sc: Schema, rs: seq<Record>, n: nat)
    ensures Selected(sc, rs, n) <= |Emit(rs)|
    decreases |rs|
  {
    hide EmitRecord, Find;
    if rs == [] {
      NoneSelected(sc, n);
    } else {
      SelectedStep(sc, rs, n);
      SelectedWithin(sc, rs[1..], n);
    }
  }

  lemma {:induction false} NoneSelected(sc: Schema, n: nat)
    ensures Selected(sc, [], n) == 0
  {
    if n > 0 { NoneSelected(sc, n - 1); }
  }

  function GrowthUpTo(sc: Schema, n: nat): nat
    requires n <= |sc.slots|
  {
    if n == 0 then 0 else GrowthUpTo(sc, n - 1) + Growth(sc.slots[n - 1])
  }

  predicate AllScalar(sc: Schema) {
    forall i :: 0 <= i < |sc.slots| ==> Scalar(sc.slots[i])
  }

  lemma {:induction false} ReencodedUpTo(sc: Schema, rs: seq<Record>, m: Msg, n: nat)
    requires AllScalar(sc) && RecordsOk(rs) && n <= |sc.slots|
    requires ApplyAll(sc, Default(sc), rs) == Some(m)
    ensures Valid(sc, m) && |Written(sc, m, n)| <= Selected(sc, rs, n) + GrowthUpTo(sc, n)
  {
    hide SlotBytes, Written, ApplyAll, SlotFold, Select, Emit, Scalar, Growth;
    if n > 0 {
      ReencodedUpTo(sc, rs, m, n - 1);
      SizeStep(sc, m, n - 1);
      ReencodedSlot(sc, rs, m, n - 1);
    } else {
      WriteStart(sc, m, []);
    }
  }

  lemma {:induction false} ReencodedSlot(sc: Schema, rs: seq<Record>, m: Msg, i: nat)
    requires AllScalar(sc) && RecordsOk(rs) && i < |sc.slots|
    requires ApplyAll(sc, Default(sc), rs) == Some(m)
    ensures |SlotBytes(sc.slots[i], m.vals[i])| <= |Emit(Select(sc, rs, Some(i)))| + Growth(sc.slots[i])
  {
    hide SlotBytes, ApplyAll, Emit;
    ParseIsSlotwise(sc, Default(sc), rs);
    SelectLegal(sc, rs, Some(i));
    var slot, sel := sc.slots[i], Select(sc, rs, Some(i));
    assert SlotFold(slot, DefaultVal(slot), sel) == Some(m.vals[i]);
    if sel == [] {
      DefaultIsSilent(slot);
    } else {
      ReencodedFold(slot, DefaultVal(slot), sel);
    }
  }

  lemma DefaultIsSilent(slot: Slot)
    ensures SlotBytes(slot, DefaultVal(slot)) == []
  {}

  /**
   * Writing back the known fields of a parsed flat message takes at most 5 bytes per int32 field more
   * than was read, and nothing more when it has no such field.
   */
  lemma {:induction false} ReencodingBound(sc: Schema, s: bytes, m: Msg)
    requires AllScalar(sc) && Parse(sc, Default(sc), s) == Some(m)
    ensures |Written(sc, m, |sc.slots|)| <= |s| + GrowthUpTo(sc, |sc.slots|)
  {
    hide Written, ApplyAll;
    TokensOk(s);
    var rs := Tokenise(s).value;
    ReencodedUpTo(sc, rs, m, |sc.slots|);
    SelectedWithin(sc, rs, |sc.slots|);
    TokeniseShrinks(s);
  }
}
