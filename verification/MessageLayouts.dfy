// Every message byte by byte: which tag and which spelling each named field has, and in
// which order the fields are written.
module MessageLayouts {
  import opened Bytes
  import opened Varints
  import opened Wire
  import opened Codec
  import opened Failures
  import opened Runtime
  import opened Layout
  import opened Messages
  import opened LeafMessages
  import opened BuffMessage
  import opened TestMessage
  import opened ObjectMessage
  import opened InventoryMessage
  import opened ChatMessage

  /** PlayerExtra (level, exp, maxExp) and ItemInfo (itemId, count, slot). */
  lemma {:induction false} TripleBytes(o: Triple)
    requires o.Valid()
    ensures Serialize(TripleSchema(), o.View()) ==
            VarintField(8, o.first) + VarintField(16, o.second) + VarintField(24, o.third) + UnknownFields(o.unknown)
  {
    hide Codec.Valid, Serialize, SlotBytes, Written, VarintField, UnknownFields;
    var sc, m := TripleSchema(), o.View();
    WriteStart(sc, m, []);
    NumberLayout(1, Int32, o.first);
    NumberLayout(2, Int32, o.second);
    NumberLayout(3, Int32, o.third);
    var f1 := VarintField(8, o.first);
    assert [] + f1 == f1;
    NextSlot(sc, m, 0, [], f1);
    NextSlot(sc, m, 1, f1, VarintField(16, o.second));
    NextSlot(sc, m, 2, f1 + VarintField(16, o.second), VarintField(24, o.third));
    LastSlot(sc, m, f1 + VarintField(16, o.second) + VarintField(24, o.third));
  }

  lemma {:induction false} MonsterExtraBytes(o: MonsterExtra)
    requires o.Valid()
    ensures Serialize(MonsterExtraSchema(), o.View()) == VarintField(8, o.templateId) + UnknownFields(o.unknown)
  {
    hide Codec.Valid, Serialize, SlotBytes, Written, VarintField, UnknownFields;
    var sc, m := MonsterExtraSchema(), o.View();
    WriteStart(sc, m, []);
    NumberLayout(1, Int32, o.templateId);
    assert [] + VarintField(8, o.templateId) == VarintField(8, o.templateId);
    NextSlot(sc, m, 0, [], VarintField(8, o.templateId));
    LastSlot(sc, m, VarintField(8, o.templateId));
  }

  lemma {:induction false} BuffDataBytes(o: BuffData)
    requires o.Valid()
    ensures Serialize(BuffDataSchema(), o.View()) ==
            VarintField(8, o.buffId) + FloatField(21, o.remainTime) + PackedField(26, o.victims) +
              UnknownFields(o.unknown)
  {
    hide Codec.Valid, Serialize, SlotBytes, Written, VarintField, FloatField, PackedField, UnknownFields;
    var sc, m := BuffDataSchema(), o.View();
    WriteStart(sc, m, []);
    VictimsOf(m);
    NumberLayout(1, UInt64, o.buffId);
    FloatLayout(2, o.remainTime);
    PackedLayout(3, o.victims);
    var f1 := VarintField(8, o.buffId);
    assert [] + f1 == f1;
    NextSlot(sc, m, 0, [], f1);
    NextSlot(sc, m, 1, f1, FloatField(21, o.remainTime));
    NextSlot(sc, m, 2, f1 + FloatField(21, o.remainTime), PackedField(26, o.victims));
    LastSlot(sc, m, f1 + FloatField(21, o.remainTime) + PackedField(26, o.victims));
  }

  /** The elements are written in their order. */
  lemma {:induction false} TestBytes(o: STest) returns (bodies: seq<bytes>)
    requires o.Valid()
    ensures |bodies| == |o.buffs|
    ensures forall i :: 0 <= i < |o.buffs| ==>
              o.buffs[i].Valid() && bodies[i] == Serialize(BuffDataSchema(), o.buffs[i].View())
    ensures Serialize(TestSchema(), o.View()) ==
            VarintField(8, o.id) + VarintField(16, o.hp) + VarintField(24, o.attack) +
            LenFields(34, bodies) + UnknownFields(o.unknown)
  {
    hide Codec.Valid, Serialize, SlotBytes, Written, VarintField, LenFields, UnknownFields, ValidVal;
    var sc, m := TestSchema(), o.View();
    WriteStart(sc, m, []);
    BuffsOf(m);
    forall i | 0 <= i < |o.buffs| ensures o.buffs[i].Valid() { BuffValid(o.views, i); }
    NumberLayout(1, UInt64, o.id);
    NumberLayout(2, UInt32, o.hp);
    NumberLayout(3, UInt32, o.attack);
    ElementsValid(o.views);
    RepeatedLayout(4, BuffDataSchema(), o.views);
    bodies := Bodies(BuffDataSchema(), o.views);
    var f1 := VarintField(8, o.id);
    var f2 := f1 + VarintField(16, o.hp);
    var f3 := f2 + VarintField(24, o.attack);
    assert [] + f1 == f1;
    NextSlot(sc, m, 0, [], f1);
    NextSlot(sc, m, 1, f1, VarintField(16, o.hp));
    NextSlot(sc, m, 2, f2, VarintField(24, o.attack));
    NextSlot(sc, m, 3, f3, LenFields(34, bodies));
    LastSlot(sc, m, f3 + LenFields(34, bodies));
  }

  lemma ElementsValid(ms: seq<Msg>)
    requires ValidVal(BUFFS, Subs(ms))
    ensures forall i :: 0 <= i < |ms| ==> Codec.Valid(BuffDataSchema(), ms[i])
  {}

  ghost function ExtraField(e: Extra, v: Val): bytes
    requires ExtraHolds(e, v)
    reads ExtraObjects(e)
  {
    match e
    case NotSet => []
    case Player(p) => LenField([0xA2, 0x06], Serialize(TripleSchema(), p.View()))
    case Monster(q) => LenField([0xAA, 0x06], Serialize(MonsterExtraSchema(), q.View()))
  }

  lemma {:induction false} ExtraLayout(e: Extra, v: Val)
    requires ExtraHolds(e, v) && ValidVal(EXTRA, v)
    ensures SlotBytes(EXTRA, v) == ExtraField(e, v)
  {
    hide Serialize, SlotBytes, EmitRecord, LenField;
    ChosenBytes(ExtraCases(), v);
    match e
    case NotSet =>
    case Player(p) => LenLayout(100, Serialize(TripleSchema(), p.View())); TwoByteTags();
    case Monster(q) => LenLayout(101, Serialize(MonsterExtraSchema(), q.View())); TwoByteTags();
  }

  lemma TwoByteTags()
    ensures EncodeVarint(802) == [0xA2, 0x06] && EncodeVarint(810) == [0xAA, 0x06]
  {
    assert EncodeVarint(6) == [6];
  }

  lemma {:induction false} ObjectInfoBytes(o: ObjectInfo)
    requires o.Valid()
    ensures Serialize(ObjectInfoSchema(), o.View()) ==
            VarintField(8, o.objectId) + VarintField(16, o.objectType) + VarintField(24, o.state) +
            VarintField(32, o.dir) + StringField(42, o.name) + VarintField(48, o.hp) + VarintField(56, o.maxHp) +
            VarintField(64, o.attack) + VarintField(72, o.defence) + VarintField(80, o.posX) +
            VarintField(88, o.posY) + ExtraField(o.extra, o.extraView) + UnknownFields(o.unknown)
  {
    hide Codec.Valid, Serialize, SlotBytes, Written, VarintField;
    hide StringField, UnknownFields, ValidVal, ExtraField, ExtraHolds;
    var sc, m := ObjectInfoSchema(), o.View();
    WriteStart(sc, m, []);
    ExtraOf(m);
    NumberLayout(1, UInt64, o.objectId);
    NumberLayout(2, Enum, o.objectType);
    NumberLayout(3, Enum, o.state);
    NumberLayout(4, Enum, o.dir);
    TextLayout(5, o.name);
    NumberLayout(6, Int32, o.hp);
    NumberLayout(7, Int32, o.maxHp);
    NumberLayout(8, Int32, o.attack);
    NumberLayout(9, Int32, o.defence);
    NumberLayout(10, Int32, o.posX);
    NumberLayout(11, Int32, o.posY);
    ExtraLayout(o.extra, o.extraView);
    var f1 := VarintField(8, o.objectId);
    var f2 := f1 + VarintField(16, o.objectType);
    var f3 := f2 + VarintField(24, o.state);
    var f4 := f3 + VarintField(32, o.dir);
    var f5 := f4 + StringField(42, o.name);
    var f6 := f5 + VarintField(48, o.hp);
    var f7 := f6 + VarintField(56, o.maxHp);
    var f8 := f7 + VarintField(64, o.attack);
    var f9 := f8 + VarintField(72, o.defence);
    var f10 := f9 + VarintField(80, o.posX);
    var f11 := f10 + VarintField(88, o.posY);
    assert [] + f1 == f1;
    NextSlot(sc, m, 0, [], f1);
    NextSlot(sc, m, 1, f1, VarintField(16, o.objectType));
    NextSlot(sc, m, 2, f2, VarintField(24, o.state));
    NextSlot(sc, m, 3, f3, VarintField(32, o.dir));
    NextSlot(sc, m, 4, f4, StringField(42, o.name));
    NextSlot(sc, m, 5, f5, VarintField(48, o.hp));
    NextSlot(sc, m, 6, f6, VarintField(56, o.maxHp));
    NextSlot(sc, m, 7, f7, VarintField(64, o.attack));
    NextSlot(sc, m, 8, f8, VarintField(72, o.defence));
    NextSlot(sc, m, 9, f9, VarintField(80, o.posX));
    NextSlot(sc, m, 10, f10, VarintField(88, o.posY));
    NextSlot(sc, m, 11, f11, ExtraField(o.extra, o.extraView));
    LastSlot(sc, m, f11 + ExtraField(o.extra, o.extraView));
  }

  ghost function ItemField(tag: byte, e: Triple?, v: Val): bytes
    requires EquippedHolds(e, v)
    reads Objects(e)
  {
    if e == null then [] else LenField([tag], Serialize(TripleSchema(), e.View()))
  }

  lemma {:induction false} ItemLayout(num: nat, e: Triple?, v: Val)
    requires 1 <= num < 15 && EquippedHolds(e, v) && ValidVal(EquippedSlot(num), v)
    ensures SlotBytes(EquippedSlot(num), v) == ItemField(8 * num + 2, e, v)
  {
    hide Serialize, SlotBytes, EmitRecord, LenField;
    ChosenBytes(EquippedSlot(num).cases, v);
    if e != null { LenLayout(num, Serialize(TripleSchema(), e.View())); }
  }

  lemma {:induction false} InventoryBytes(o: InventoryData) returns (bodies: seq<bytes>)
    requires o.Valid()
    ensures |bodies| == |o.items|
    ensures forall i :: 0 <= i < |o.items| ==>
              o.items[i].Valid() && bodies[i] == Serialize(TripleSchema(), o.items[i].View())
    ensures Serialize(InventoryDataSchema(), o.View()) ==
            LenFields(10, bodies) + ItemField(18, o.weapon, o.weaponView) + ItemField(26, o.armor, o.armorView) +
            ItemField(34, o.potion, o.potionView) + UnknownFields(o.unknown)
  {
    hide Codec.Valid, Serialize, SlotBytes, Written, ItemField, LenFields, UnknownFields, ValidVal;
    var sc, m := InventoryDataSchema(), o.View();
    WriteStart(sc, m, []);
    EquippedOf(m);
    forall i | 0 <= i < |o.items| ensures o.items[i].Valid() { ItemValid(o.itemViews, i); }
    ItemsValid(o.itemViews);
    RepeatedLayout(1, TripleSchema(), o.itemViews);
    bodies := Bodies(TripleSchema(), o.itemViews);
    ItemLayout(2, o.weapon, o.weaponView);
    ItemLayout(3, o.armor, o.armorView);
    ItemLayout(4, o.potion, o.potionView);
    var f1 := LenFields(10, bodies);
    var f2 := f1 + ItemField(18, o.weapon, o.weaponView);
    var f3 := f2 + ItemField(26, o.armor, o.armorView);
    assert [] + f1 == f1;
    NextSlot(sc, m, 0, [], f1);
    NextSlot(sc, m, 1, f1, ItemField(18, o.weapon, o.weaponView));
    NextSlot(sc, m, 2, f2, ItemField(26, o.armor, o.armorView));
    NextSlot(sc, m, 3, f3, ItemField(34, o.potion, o.potionView));
    LastSlot(sc, m, f3 + ItemField(34, o.potion, o.potionView));
  }

  lemma ItemsValid(ms: seq<Msg>)
    requires ValidVal(ITEMS, Subs(ms))
    ensures forall i :: 0 <= i < |ms| ==> Codec.Valid(TripleSchema(), ms[i])
  {}

  lemma {:induction false} ChatBytes(o: Chat)
    requires o.Valid()
    ensures Serialize(ChatSchema(), o.View()) ==
            StringField(10, o.sender) + VarintField(16, o.kind) + StringField(26, o.msg) + StringField(34, o.target) +
            VarintField(40, o.partyId) + UnknownFields(o.unknown)
  {
    ChatLayout(o.sender, o.kind, o.msg, o.target, o.partyId, o.unknown);
  }

  // ---- Reading: which record goes to which field -----------------------------------------------

  /** Where each field number and wire type goes; None is an unknown field. */
  lemma {:induction false} ObjectInfoTags(num: nat, wireType: nat)
    ensures FindBelow(ObjectInfoSchema().slots, num, wireType, 12) ==
            if wireType == 0 && 1 <= num <= 11 && num != 5 then Some(num - 1)
            else if wireType == 2 && num == 5 then Some(4)
            else if wireType == 2 && (num == 100 || num == 101) then Some(11)
            else None
    ensures CaseOf(ExtraCases(), 100) == 0 && CaseOf(ExtraCases(), 101) == 1
  {
    hide FindBelow, CaseOf;
    var slots := ObjectInfoSchema().slots;
    Scan(slots, num, wireType);
    ExtraCase(num);
    ExtraCase(100);
    ExtraCase(101);
    forall i | 0 <= i < 12
      ensures Accepts(slots[i], num, wireType) <==>
                if i == 4 then wireType == 2 && num == 5
                else if i == 11 then wireType == 2 && (num == 100 || num == 101)
                else wireType == 0 && num == i + 1
    {}
    if wireType == 0 && 1 <= num <= 11 && num != 5 { assert Accepts(slots[num - 1], num, wireType); }
    if wireType == 2 && num == 5 { assert Accepts(slots[4], num, wireType); }
    if wireType == 2 && (num == 100 || num == 101) { assert Accepts(slots[11], num, wireType); }
  }

  lemma ExtraCase(num: nat)
    ensures CaseOf(ExtraCases(), num) == if num == 100 then 0 else if num == 101 then 1 else 2
  {}

  lemma Scan(slots: seq<Slot>, num: nat, wireType: nat)
    ensures var i := FindBelow(slots, num, wireType, |slots|);
            if i.Some? then i.value < |slots| && Accepts(slots[i.value], num, wireType)
            else forall j :: 0 <= j < |slots| ==> !Accepts(slots[j], num, wireType)
  {}

  lemma ChatTags(num: nat, wireType: nat)
    ensures FindBelow(ChatSchema().slots, num, wireType, 5) ==
            if wireType == 2 && (num == 1 || num == 3 || num == 4) then Some(num - 1)
            else if wireType == 0 && (num == 2 || num == 5) then Some(num - 1)
            else None
  {}

  lemma FlatTags(num: nat, wireType: nat)
    ensures FindBelow(TripleSchema().slots, num, wireType, 3) ==
            if wireType == 0 && 1 <= num <= 3 then Some(num - 1) else None
    ensures FindBelow(MonsterExtraSchema().slots, num, wireType, 1) ==
            if wireType == 0 && num == 1 then Some(0) else None
    ensures FindBelow(BuffDataSchema().slots, num, wireType, 3) ==
            if wireType == 0 && num == 1 then Some(0)
            else if wireType == 5 && num == 2 then Some(1)
            else if (wireType == 0 || wireType == 2) && num == 3 then Some(2)
            else None
    ensures FindBelow(RemoveObjectSchema().slots, num, wireType, 1) ==
            if (wireType == 0 || wireType == 2) && num == 1 then Some(0) else None
  {}

  lemma NestedTags(num: nat, wireType: nat)
    ensures FindBelow(TestSchema().slots, num, wireType, 4) ==
            if wireType == 0 && 1 <= num <= 3 then Some(num - 1)
            else if wireType == 2 && num == 4 then Some(3)
            else None
    ensures FindBelow(AddObjectSchema().slots, num, wireType, 1) ==
            if wireType == 2 && num == 1 then Some(0) else None
    ensures FindBelow(InventoryDataSchema().slots, num, wireType, 4) ==
            if wireType == 2 && 1 <= num <= 4 then Some(num - 1) else None
  {}

  // ---- Two failures byte by byte --------------------------------------------------------------------

  /** Ten bytes that are no varint: as partyId they leave 0 behind, as type they leave it as it was. */
  lemma {:induction false} OverlongNumbers(m: Msg, overlong: bytes, rest: bytes)
    requires Codec.Valid(ChatSchema(), m) && |overlong| == 10 && forall i :: 0 <= i < 10 ==> overlong[i] >= 128
    ensures |m.vals| == 5
    ensures AfterFailure(ChatSchema(), m, [40] + overlong + rest) == Some(Msg(m.vals[4 := Num(0)], m.unknown))
    ensures AfterFailure(ChatSchema(), m, [16] + overlong + rest) == Some(m)
  {
    hide Codec.Valid, Groups, ReadRecord;
    OverlongRefused(overlong + rest);
    ChatTags(5, 0);
    ChatTags(2, 0);
    assert ChatSchema().slots[4] == Number(5, UInt64) && ChatSchema().slots[1] == Number(2, Enum);
    FrontTag(overlong + rest);
    assert forall tag: byte :: [tag] + overlong + rest == [tag] + (overlong + rest);
    Shape(m);
    assert Put(m, 1, m.vals[1]) == m;
  }

  /** The same for BuffData: a 0 as buffId, one more 0 among the victims, nothing for an unknown field. */
  lemma {:induction false} OverlongBuffNumbers(m: Msg, overlong: bytes, rest: bytes)
    requires Codec.Valid(BuffDataSchema(), m) && |overlong| == 10 && forall i :: 0 <= i < 10 ==> overlong[i] >= 128
    ensures |m.vals| == 3 && m.vals[2].Nums?
    ensures AfterFailure(BuffDataSchema(), m, [8] + overlong + rest) == Some(Msg(m.vals[0 := Num(0)], m.unknown))
    ensures AfterFailure(BuffDataSchema(), m, [24] + overlong + rest) ==
            Some(Msg(m.vals[2 := Nums(m.vals[2].ns + [0])], m.unknown))
    ensures AfterFailure(BuffDataSchema(), m, [32] + overlong + rest) == Some(m)
  {
    hide Codec.Valid, Groups, ReadRecord;
    OverlongRefused(overlong + rest);
    FlatTags(1, 0);
    FlatTags(3, 0);
    FlatTags(4, 0);
    assert BuffDataSchema().slots[0] == Number(1, UInt64) && BuffDataSchema().slots[2] == Packed(3);
    FrontTag(overlong + rest);
    assert forall tag: byte :: [tag] + overlong + rest == [tag] + (overlong + rest);
    VictimsOf(m);
  }

  lemma {:induction false} FrontTag(s: bytes)
    ensures forall tag: byte :: tag < 128 ==> ReadTag([tag] + s) == Some((tag as nat, 1)) && ([tag] + s)[1..] == s
  {
    forall tag: byte | tag < 128
      ensures ReadTag([tag] + s) == Some((tag as nat, 1)) && ([tag] + s)[1..] == s
    {
      assert ([tag] + s)[1..] == s;
    }
  }

  /** Five bytes that are no length: a list has a new empty element, and an unknown field was added, empty. */
  lemma {:induction false} OverlongLengths(m: Msg, overlong: bytes, rest: bytes)
    requires Codec.Valid(TestSchema(), m) && |overlong| == 5 && forall i :: 0 <= i < 5 ==> overlong[i] >= 128
    ensures |m.vals| == 4 && m.vals[3].Subs?
    ensures AfterFailure(TestSchema(), m, [34] + overlong + rest) ==
            Some(Msg(m.vals[3 := Subs(m.vals[3].ms + [Default(BuffDataSchema())])], m.unknown))
    ensures AfterFailure(TestSchema(), m, [42] + overlong + rest) ==
            Some(Msg(m.vals, m.unknown + [Record(5, Len([]))]))
  {
    hide Codec.Valid, Groups, ReadRecord, Default;
    LengthRefused(overlong + rest);
    NestedTags(4, 2);
    NestedTags(5, 2);
    assert TestSchema().slots[3] == Repeated(4, BuffDataSchema());
    FrontTag(overlong + rest);
    assert forall tag: byte :: [tag] + overlong + rest == [tag] + (overlong + rest);
    BuffsOf(m);
    TestShape(m);
  }

  lemma TestShape(m: Msg)
    requires Codec.Valid(TestSchema(), m)
    ensures |m.vals| == 4
  {}

  lemma {:induction false} LengthRefused(s: bytes)
    requires |s| >= 5 && forall i :: 0 <= i < 5 ==> s[i] >= 128
    ensures Refused(2, s)
  {
    hide DecodeVarint;
    if DecodeVarint(s, 5).Some? { DecodedIsSpelled(s, 5); }
  }

  lemma Shape(m: Msg)
    requires Codec.Valid(ChatSchema(), m)
    ensures |m.vals| == 5
  {}

  lemma {:induction false} OverlongRefused(s: bytes)
    requires |s| >= 10 && forall i :: 0 <= i < 10 ==> s[i] >= 128
    ensures Refused(0, s)
  {
    hide DecodeVarint;
    if DecodeVarint(s, 10).Some? { DecodedIsSpelled(s, 10); }
  }
}
