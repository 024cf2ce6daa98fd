// The general theorems at the messages of this repository: field order, the
// packed list of S_RemoveObject, and the oneof of ObjectInfo.
module MessageFacts {
  import opened Bytes
  import opened Wire
  import opened Codec
  import opened Projection
  import opened MergeAlgebra
  import opened Histories
  import opened Runtime
  import opened Messages
  import opened Utf8
  import opened LengthLimits
  import opened ComputedSizes

  // ---- Field order by field number ------------------------------------------------

  /** The field number belongs to the slot; the cases of a oneof belong to one slot. */
  predicate Belongs(slot: Slot, num: nat) {
    if slot.Choice? then CaseOf(slot.cases, num) < |slot.cases| else slot.num == num
  }

  /** The records of `rs` with a field number of `slot`, whatever their wire type. */
  function OfField(slot: Slot, rs: seq<Record>): seq<Record> {
    if rs == [] then []
    else if Belongs(slot, rs[0].num) then [rs[0]] + OfField(slot, rs[1..])
    else OfField(slot, rs[1..])
  }

  lemma {:induction false} SelectOfField(sc: Schema, rs: seq<Record>, i: nat)
    requires i < |sc.slots|
    ensures Select(sc, OfField(sc.slots[i], rs), Some(i)) == Select(sc, rs, Some(i))
  {
    if rs != [] {
      SelectOfField(sc, rs[1..], i);
      var slot, later := sc.slots[i], OfField(sc.slots[i], rs[1..]);
      assert ([rs[0]] + later)[1..] == later;
    }
  }

  /**
   * Two inputs with the same records in the same order for every field (the cases of a oneof counting as
   * one field) leave the same known fields behind, or both fail; everything else may be permuted.
   */
  lemma {:induction false} PermutedFieldsParseAlike(sc: Schema, m: Msg, xs: seq<Record>, ys: seq<Record>)
    requires Valid(sc, m) && RecordsOk(xs) && RecordsOk(ys)
    requires forall i :: 0 <= i < |sc.slots| ==> OfField(sc.slots[i], xs) == OfField(sc.slots[i], ys)
    ensures SameKnown(ApplyAll(sc, m, xs), ApplyAll(sc, m, ys))
  {
    hide Valid, ApplyAll, Select;
    forall i: nat | i < |sc.slots|
      ensures Select(sc, xs, Some(i)) == Select(sc, ys, Some(i))
    {
      SelectOfField(sc, xs, i);
      SelectOfField(sc, ys, i);
    }
    SameSlotsSameKnown(sc, m, xs, ys);
  }

  /** Adjacent records of different ObjectInfo fields commute unless they are the two cases of `extra`. */
  lemma {:induction false} ObjectInfoFieldsCommute(m: Msg, xs: seq<Record>, r: Record, t: Record, ys: seq<Record>)
    requires Valid(ObjectInfoSchema(), m) && RecordsOk(xs) && RecordOk(r) && RecordOk(t) && RecordsOk(ys)
    requires r.num != t.num && !(100 <= r.num <= 101 && 100 <= t.num <= 101)
    ensures SameKnown(ApplyAll(ObjectInfoSchema(), m, xs + [r, t] + ys),
                      ApplyAll(ObjectInfoSchema(), m, xs + [t, r] + ys))
  {
    hide Valid, ApplyAll;
    FieldOfNumber(r);
    FieldOfNumber(t);
    AdjacentSwap(ObjectInfoSchema(), m, xs, r, t, ys);
  }

  lemma FieldOfNumber(r: Record)
    ensures var i := Find(ObjectInfoSchema(), r);
            i.Some? ==> if i.value == 11 then 100 <= r.num <= 101 else r.num == i.value + 1
  {}

  // ---- Packed or not -----------------------------------------------------------------

  /**
   * S_RemoveObject: whatever mixture of packed chunks and single varints `s` is, the ids are all its
   * values in wire order, and they are written back as one packed record.
   */
  lemma {:induction false} RemoveObjectIds(s: bytes, m: Msg)
    requires Parse(RemoveObjectSchema(), Default(RemoveObjectSchema()), s) == Some(m)
    ensures RecordsOk(Tokenise(s).value) &&
            AllAccepted(Packed(1), Select(RemoveObjectSchema(), Tokenise(s).value, Some(0)))
    ensures m.vals[0].Nums?
    ensures WireValues(Select(RemoveObjectSchema(), Tokenise(s).value, Some(0))) == Some(m.vals[0].ns)
    ensures Valid(RemoveObjectSchema(), m) && Serialize(RemoveObjectSchema(), m) ==
            (if m.vals[0].ns == [] then [] else EmitRecord(Record(1, Len(EncodePacked(m.vals[0].ns))))) +
            Emit(m.unknown)
  {
    hide Parse, Tokenise, WireValues, Emit, EmitRecord, SlotBytes, Written, Serialize, AllAccepted;
    var sc := RemoveObjectSchema();
    IdRecords(s, m);
    PackedBytes(1, m.vals[0].ns);
    WriteStart(sc, m, []);
    WriteSlot(sc, m, 0, [], [], SlotBytes(Packed(1), m.vals[0]));
    WriteEnd(sc, m, [], SlotBytes(Packed(1), m.vals[0]));
  }

  lemma IdRecords(s: bytes, m: Msg)
    requires Parse(RemoveObjectSchema(), Default(RemoveObjectSchema()), s) == Some(m)
    ensures Tokenise(s).Some? && RecordsOk(Tokenise(s).value) && m.vals[0].Nums?
    ensures var rs := Select(RemoveObjectSchema(), Tokenise(s).value, Some(0));
            AllAccepted(Packed(1), rs) && WireValues(rs) == Some(m.vals[0].ns)
  {
    hide ApplyAll, SlotFold, WireValues;
    var sc := RemoveObjectSchema();
    TokensOk(s);
    ParseIsSlotwise(sc, Default(sc), Tokenise(s).value);
    SelectLegal(sc, Tokenise(s).value, Some(0));
    var rs := Select(sc, Tokenise(s).value, Some(0));
    assert SlotResult(sc, Default(sc), Tokenise(s).value, 0) == Some(m.vals[0]);
    PackedOverInput(1, Nums([]), rs);
    if WireValues(rs).Some? { assert [] + WireValues(rs).value == WireValues(rs).value; }
  }

  // ---- The oneof of ObjectInfo ----------------------------------------------------------

  /**
   * ObjectInfo.extra over a whole input: its case is that of the last record of field 100 or 101, and its
   * value is one parse of the payloads since the last change of case, into the earlier submessage only if
   * the case never changed.
   */
  lemma {:induction false} ExtraOverInput(m: Msg, s: bytes, m': Msg)
    requires Valid(ObjectInfoSchema(), m) && Parse(ObjectInfoSchema(), m, s) == Some(m')
    requires Select(ObjectInfoSchema(), Tokenise(s).value, Some(11)) != []
    ensures ValidVal(Choice(ExtraCases()), m.vals[11])
    ensures var rs := Select(ObjectInfoSchema(), Tokenise(s).value, Some(11));
            var j, k := CaseOf(ExtraCases(), rs[|rs| - 1].num), RunStart(ExtraCases(), rs);
            && AllAccepted(Choice(ExtraCases()), rs) && j < 2
            && m'.vals[11] == match Parse(ExtraCases()[j].sub,
                                          if k == 0 then CaseBase(ExtraCases(), m.vals[11], j)
                                          else Default(ExtraCases()[j].sub),
                                          Payloads(rs[k..]))
                              case Some(x) => Chosen(j, x)
                              case None => Unset
  {
    hide Parse, ApplyAll, SlotFold, RunStart;
    var sc := ObjectInfoSchema();
    ExtraRecords(m, s, m');
    var rs := Select(sc, Tokenise(s).value, Some(11));
    AllAcceptedLast(rs);
    OneofOverInput(ExtraCases(), m.vals[11], rs);
  }

  lemma {:induction false} ExtraRecords(m: Msg, s: bytes, m': Msg)
    requires Valid(ObjectInfoSchema(), m) && Parse(ObjectInfoSchema(), m, s) == Some(m')
    ensures Tokenise(s).Some?
    ensures var rs := Select(ObjectInfoSchema(), Tokenise(s).value, Some(11));
            && ValidVal(Choice(ExtraCases()), m.vals[11]) && AllAccepted(Choice(ExtraCases()), rs)
            && SlotFold(Choice(ExtraCases()), m.vals[11], rs) == Some(m'.vals[11])
  {
    hide ApplyAll, SlotFold;
    var sc := ObjectInfoSchema();
    TokensOk(s);
    ParseIsSlotwise(sc, m, Tokenise(s).value);
    SelectLegal(sc, Tokenise(s).value, Some(11));
    assert sc.slots[11] == Choice(ExtraCases());
    assert SlotResult(sc, m, Tokenise(s).value, 11) == Some(m'.vals[11]);
  }

  lemma AllAcceptedLast(rs: seq<Record>)
    requires rs != [] && AllAccepted(Choice(ExtraCases()), rs)
    ensures CaseOf(ExtraCases(), rs[|rs| - 1].num) < 2
    ensures forall k :: 0 <= k < |rs| ==> rs[k].body.Len?
  {}

  /** `c` has the case of `a`, `b` has the other one, and something of `a`'s submessage outlives `c`'s. */
  predicate LeavesLeftover(a: Val, b: Val, c: Val)
    requires ValidVal(Choice(ExtraCases()), a) && ValidVal(Choice(ExtraCases()), c)
  {
    && a.Chosen? && b.Chosen? && c.Chosen? && a.i == c.i && b.i != c.i
    && !Absorbs(ExtraCases()[c.i].sub, a.m, c.m)
  }

  /** Merging ObjectInfos is associative exactly when `extra` leaves no leftover. */
  lemma {:induction false} ObjectInfoAssociativity(a: Msg, b: Msg, c: Msg)
    requires Valid(ObjectInfoSchema(), a) && Valid(ObjectInfoSchema(), b) && Valid(ObjectInfoSchema(), c)
    ensures |a.vals| == |b.vals| == |c.vals| == 12
    ensures ValidVal(Choice(ExtraCases()), a.vals[11]) && ValidVal(Choice(ExtraCases()), c.vals[11])
    ensures Merge(ObjectInfoSchema(), Merge(ObjectInfoSchema(), a, b), c) ==
            Merge(ObjectInfoSchema(), a, Merge(ObjectInfoSchema(), b, c)) <==>
            !LeavesLeftover(a.vals[11], b.vals[11], c.vals[11])
  {
    hide Merge, Absorbs;
    var sc := ObjectInfoSchema();
    MergeAssociativeIff(sc, a, b, c);
    assert sc.slots[11] == Choice(ExtraCases());
    assert ValidVal(sc.slots[11], a.vals[11]) && ValidVal(sc.slots[11], b.vals[11]) &&
      ValidVal(sc.slots[11], c.vals[11]);
    if a.vals[11].Chosen? && b.vals[11].Chosen? && c.vals[11].Chosen? && a.vals[11].i == b.vals[11].i == c.vals[11].i {
      ExtrasOneofFree(a.vals[11], b.vals[11], c.vals[11]);
    }
    forall i | 0 <= i < 12 && i != 11
      ensures ValidVal(sc.slots[i], a.vals[i]) && ValidVal(sc.slots[i], b.vals[i]) && ValidVal(sc.slots[i], c.vals[i])
      ensures NoLeftoverVal(sc.slots[i], a.vals[i], b.vals[i], c.vals[i])
    {}
  }

  lemma ExtrasOneofFree(a: Val, b: Val, c: Val)
    requires ValidVal(Choice(ExtraCases()), a) && ValidVal(Choice(ExtraCases()), b) && ValidVal(Choice(ExtraCases()), c)
    requires a.Chosen? && b.Chosen? && c.Chosen? && a.i == b.i == c.i
    ensures NoLeftoverVal(Choice(ExtraCases()), a, b, c)
  {
    OneofFreeHasNoLeftover(ExtraCases()[c.i].sub, a.m, b.m, c.m);
  }

  function WithExtra(extra: Val): Msg
    requires ValidVal(Choice(ExtraCases()), extra)
    ensures Valid(ObjectInfoSchema(), WithExtra(extra))
  {
    Msg([Num(0), Num(0), Num(0), Num(0), Str([]), Num(0), Num(0), Num(0), Num(0), Num(0), Num(0), extra], [])
  }

  /** A level-5 player, then a monster, then a player without a level: only the right grouping keeps the level. */
  lemma {:induction false} LeftoverExample()
    ensures var sc := ObjectInfoSchema();
            var a := WithExtra(Chosen(0, Msg([Num(5), Num(0), Num(0)], [])));
            var b := WithExtra(Chosen(1, Default(MonsterExtraSchema())));
            var c := WithExtra(Chosen(0, Default(TripleSchema())));
            Merge(sc, Merge(sc, a, b), c) != Merge(sc, a, Merge(sc, b, c))
  {
    var a := Chosen(0, Msg([Num(5), Num(0), Num(0)], []));
    var b := Chosen(1, Default(MonsterExtraSchema()));
    var c := Chosen(0, Default(TripleSchema()));
    assert !AbsorbsVal(TripleSchema().slots[0], a.m.vals[0], c.m.vals[0]);
    ObjectInfoAssociativity(WithExtra(a), WithExtra(b), WithExtra(c));
  }

  /** S_AddObject, whose objects hold strings and a oneof: the round trip, for every list of objects. */
  lemma {:induction false} AddObjectRoundTrips(m: Msg)
    requires Valid(AddObjectSchema(), m)
    ensures Parse(AddObjectSchema(), Default(AddObjectSchema()), Serialize(AddObjectSchema(), m)) ==
            if Fits(AddObjectSchema(), m, MAX_LEN) && NamesOk(m) then Some(m) else None
  {
    hide Parse, Serialize, Valid, TextOk, Fits;
    AddObjectSchemaOk();
    RoundTripIff(AddObjectSchema(), m);
    NamesDecide(m);
  }

  /** Every object's name is UTF-8. */
  predicate NamesOk(m: Msg)
    requires Valid(AddObjectSchema(), m)
  {
    assert ValidVal(Repeated(1, ObjectInfoSchema()), m.vals[0]);
    forall i :: 0 <= i < |m.vals[0].ms| ==> NameOf(m.vals[0].ms[i]).Some? && ValidUtf8(NameOf(m.vals[0].ms[i]).value)
  }

  function NameOf(m: Msg): Option<bytes> {
    if |m.vals| == 12 && m.vals[4].Str? then Some(m.vals[4].s) else None
  }

  lemma NamesDecide(m: Msg)
    requires Valid(AddObjectSchema(), m)
    ensures TextOk(AddObjectSchema(), m) <==> NamesOk(m)
  {
    hide ValidUtf8;
    var slot := AddObjectSchema().slots[0];
    assert ValidVal(slot, m.vals[0]);
    assert TextOk(AddObjectSchema(), m) <==> TextOkVal(slot, m.vals[0]);
    forall i | 0 <= i < |m.vals[0].ms|
      ensures NameOf(m.vals[0].ms[i]).Some?
      ensures TextOk(ObjectInfoSchema(), m.vals[0].ms[i]) <==> ValidUtf8(NameOf(m.vals[0].ms[i]).value)
    {
      NameDecides(m.vals[0].ms[i]);
    }
  }

  lemma {:induction false} NameDecides(m: Msg)
    requires Valid(ObjectInfoSchema(), m)
    ensures NameOf(m).Some? && (TextOk(ObjectInfoSchema(), m) <==> ValidUtf8(NameOf(m).value))
  {
    hide ValidUtf8;
    var slots := ObjectInfoSchema().slots;
    assert ValidVal(slots[4], m.vals[4]) && (TextOkVal(slots[4], m.vals[4]) <==> ValidUtf8(m.vals[4].s));
    forall i | 0 <= i < 12 && i != 4
      ensures TextOkVal(slots[i], m.vals[i])
    {
      assert ValidVal(slots[i], m.vals[i]);
      if i == 11 { LeafTextOk(ExtraCases(), m.vals[11]); }
    }
  }

  lemma LeafTextOk(cases: seq<Case>, v: Val)
    requires ValidVal(Choice(cases), v) && cases == ExtraCases()
    ensures TextOkVal(Choice(cases), v)
  {
    if v.Chosen? {
      var sub := cases[v.i].sub;
      forall i | 0 <= i < |sub.slots| ensures TextOkVal(sub.slots[i], v.m.vals[i]) {
        assert sub.slots[i].Number? && ValidVal(sub.slots[i], v.m.vals[i]);
      }
    }
  }

  /**
   * No packed list but those of BuffData and S_RemoveObject: elsewhere the computed size is exact exactly
   * when every prefix is.
   */
  lemma {:induction false} PackedFreeSchemas()
    ensures PackedFree(ChatSchema()) && PackedFree(ObjectInfoSchema()) && PackedFree(AddObjectSchema()) &&
            PackedFree(InventoryDataSchema())
  {
    assert PackedFree(TripleSchema()) && PackedFree(MonsterExtraSchema());
    assert PackedFreeSlot(Choice(ExtraCases()));
    ObjectsPackedFree();
    assert forall i :: 2 <= i < 5 ==> PackedFreeSlot(Choice([Case(i, TripleSchema())]));
  }

  lemma ObjectsPackedFree()
    ensures PackedFree(ObjectInfoSchema())
  {
    assert PackedFree(TripleSchema()) && PackedFree(MonsterExtraSchema());
    assert PackedFreeSlot(Choice(ExtraCases()));
    var slots := ObjectInfoSchema().slots;
    forall i | 0 <= i < 12 ensures PackedFreeSlot(slots[i]) {
      if i == 11 { assert slots[11] == Choice(ExtraCases()); }
    }
  }
}
