// The leaf messages: PlayerExtra and ItemInfo, which share the layout of three
// int32 fields, and MonsterExtra with one.
module LeafMessages {
  import opened Bytes
  import opened Wire
  import opened Codec
  import opened Failures
  import opened RoundTrip
  import opened ComputedSizes
  import opened Runtime
  import opened Messages

  /** PlayerExtra (level, exp, maxExp) and ItemInfo (itemId, count, slot). */
  class Triple {
    var first: int32
    var second: int32
    var third: int32
    var unknown: seq<Record>
    var cachedSize: int32

    ghost predicate Valid()
      reads this`first, this`second, this`third, this`unknown
    {
      Codec.Valid(TripleSchema(), View())
    }

    ghost function View(): Msg
      reads this`first, this`second, this`third, this`unknown
    {
      Msg([Num(first), Num(second), Num(third)], unknown)
    }

    ghost predicate CachesRight()
      reads this
    {
      Valid() && cachedSize == ToCachedSize(ComputedSize(TripleSchema(), View()))
    }

    constructor ()
      ensures Valid() && View() == Default(TripleSchema())
    {
      first, second, third, unknown, cachedSize := 0, 0, 0, [], 0;
    }

    /** The copy constructor: the unknown fields, then a block copy of the scalars. */
    constructor Copy(from: Triple)
      requires from.Valid()
      ensures Valid() && View() == from.View()
    {
      cachedSize := 0;
      unknown := from.unknown;
      first, second, third := from.first, from.second, from.third;
    }

    method Clear()
      modifies this`first, this`second, this`third, this`unknown
      ensures Valid() && View() == Default(TripleSchema())
    {
      first, second, third := 0, 0, 0;
      unknown := [];
    }

    method MergeFrom(from: Triple)
      requires Valid() && from.Valid() && from != this
      modifies this`first, this`second, this`third, this`unknown
      ensures Valid() && View() == Merge(TripleSchema(), old(View()), from.View())
    {
      if from.first != 0 { first := from.first; }
      if from.second != 0 { second := from.second; }
      if from.third != 0 { third := from.third; }
      unknown := unknown + from.unknown;
      assert View().vals == Merge(TripleSchema(), old(View()), from.View()).vals;
    }

    method CopyFrom(from: Triple)
      requires Valid() && from.Valid()
      modifies this`first, this`second, this`third, this`unknown
      ensures Valid() && View() == old(from.View())
    {
      if from == this { return; }
      Clear();
      MergeFrom(from);
      MergeIntoDefault(TripleSchema(), from.View());
    }

    method ParseField(s: bytes, ghost ptr: nat, tag: nat, p: nat) returns (ok: bool, next: nat)
      requires Valid() && TagRead(s, ptr, tag, p)
      modifies this`first, this`second, this`third, this`unknown
      ensures Valid()
      ensures ok ==> Continues(TripleSchema(), s, old(View()), ptr, View(), next)
      ensures !ok ==> Fails(TripleSchema(), s, old(View()), ptr, View())
    {
      hide Continues, Fails, ValidVal, TagRead, Codec.Valid;
      ghost var sc, m := TripleSchema(), View();
      LeafSchemasOk();
      var v, r, added;
      if tag / 8 == 1 && tag % 256 == 8 {
        ok, v, next := ReadNumber(s, ptr, tag, p, Int32, sc, m, 0);
        first := v;
        assert View() == Put(m, 0, Num(v));
      } else if tag / 8 == 2 && tag % 256 == 16 {
        ok, v, next := ReadNumber(s, ptr, tag, p, Int32, sc, m, 1);
        second := v;
        assert View() == Put(m, 1, Num(v));
      } else if tag / 8 == 3 && tag % 256 == 24 {
        ok, v, next := ReadNumber(s, ptr, tag, p, Int32, sc, m, 2);
        third := v;
        assert View() == Put(m, 2, Num(v));
      } else {
        ok, added, r, next := ReadUnknown(s, ptr, tag, p, sc, m);
        if added { unknown := unknown + [r]; assert View() == m.(unknown := m.unknown + [r]); }
      }
    }

    method InternalParse(s: bytes) returns (ok: bool)
      requires Valid()
      modifies this`first, this`second, this`third, this`unknown
      ensures Valid() && Parsed(TripleSchema(), old(View()), s, ok, View())
    {
      hide Codec.Valid, Parse, AfterFailure, Fails, Parsed;
      var ptr := 0;
      ghost var m := View();
      while ptr < |s|
        invariant ptr <= |s| && Valid() && m == View()
        invariant Reached(TripleSchema(), s, old(View()), 0, m, ptr)
      {
        ghost var at := ptr;
        var tag, p;
        ok, tag, p := ReadTagAt(s, ptr);
        if ok { ok, ptr := ParseField(s, at, tag, p); } else { NoTurn(TripleSchema(), m, s, at); }
        if !ok {
          ReachedFails(TripleSchema(), s, old(View()), 0, m, at, View());
          FailsAtStart(TripleSchema(), s, old(View()), View());
          return;
        }
        ReachedNext(TripleSchema(), s, old(View()), 0, m, at, View(), ptr);
        m := View();
      }
      ReachedEnd(TripleSchema(), s, old(View()), m);
      return true;
    }

    method ByteSizeLong() returns (total: nat)
      requires Valid()
      modifies this`cachedSize
      ensures CachesRight() && total == ComputedSize(TripleSchema(), View()) == |Serialize(TripleSchema(), View())|
    {
      hide Serialize, ComputedSize, SlotBytes, ValidVal;
      TripleSize(View());
      var unknownSize := UnknownSize(unknown);
      total := FieldSize(1, Int32, first) + FieldSize(2, Int32, second) + FieldSize(3, Int32, third);
      total := total + unknownSize;
      cachedSize := ToCachedSize(total);
    }

    method InternalSerialize(target: bytes) returns (out: bytes)
      requires Valid()
      ensures out == target + Serialize(TripleSchema(), View())
    {
      hide Serialize, SlotBytes, ValidVal;
      ghost var sc, m := TripleSchema(), View();
      var out1 := WriteField(1, Int32, first, target);
      WriteSlot(sc, m, 0, target, target, out1);
      var out2 := WriteField(2, Int32, second, out1);
      WriteSlot(sc, m, 1, target, out1, out2);
      var out3 := WriteField(3, Int32, third, out2);
      WriteSlot(sc, m, 2, target, out2, out3);
      out := WriteUnknown(unknown, out3);
      WriteEnd(sc, m, target, out3);
    }
  }

  /** Without length prefixes the computed size is always right. */
  lemma TripleSize(m: Msg)
    requires Codec.Valid(TripleSchema(), m)
    ensures RecordsOk(m.unknown)
    ensures forall i :: 0 <= i < 3 ==> ValidVal(TripleSchema().slots[i], m.vals[i])
    ensures var slots := TripleSchema().slots;
            |Serialize(TripleSchema(), m)| ==
            |SlotBytes(slots[0], m.vals[0])| + |SlotBytes(slots[1], m.vals[1])| + |SlotBytes(slots[2], m.vals[2])| +
            |Emit(m.unknown)|
    ensures ComputedSize(TripleSchema(), m) == |Serialize(TripleSchema(), m)|
  {
    hide Serialize, ComputedSize, SlotBytes;
    var sc := TripleSchema();
    WriteStart(sc, m, []);
    SizeStep(sc, m, 0);
    SizeStep(sc, m, 1);
    SizeStep(sc, m, 2);
    SizeEnd(sc, m);
    ExactSize(sc, m);
  }

  class MonsterExtra {
    var templateId: int32
    var unknown: seq<Record>
    var cachedSize: int32

    ghost predicate Valid()
      reads this`templateId, this`unknown
    {
      Codec.Valid(MonsterExtraSchema(), View())
    }

    ghost function View(): Msg
      reads this`templateId, this`unknown
    {
      Msg([Num(templateId)], unknown)
    }

    ghost predicate CachesRight()
      reads this
    {
      Valid() && cachedSize == ToCachedSize(ComputedSize(MonsterExtraSchema(), View()))
    }

    constructor ()
      ensures Valid() && View() == Default(MonsterExtraSchema())
    {
      templateId, unknown, cachedSize := 0, [], 0;
    }

    constructor Copy(from: MonsterExtra)
      requires from.Valid()
      ensures Valid() && View() == from.View()
    {
      cachedSize := 0;
      unknown := from.unknown;
      templateId := from.templateId;
    }

    method Clear()
      modifies this`templateId, this`unknown
      ensures Valid() && View() == Default(MonsterExtraSchema())
    {
      templateId := 0;
      unknown := [];
    }

    method MergeFrom(from: MonsterExtra)
      requires Valid() && from.Valid() && from != this
      modifies this`templateId, this`unknown
      ensures Valid() && View() == Merge(MonsterExtraSchema(), old(View()), from.View())
    {
      if from.templateId != 0 { templateId := from.templateId; }
      unknown := unknown + from.unknown;
      assert View().vals == Merge(MonsterExtraSchema(), old(View()), from.View()).vals;
    }

    method CopyFrom(from: MonsterExtra)
      requires Valid() && from.Valid()
      modifies this`templateId, this`unknown
      ensures Valid() && View() == old(from.View())
    {
      if from == this { return; }
      Clear();
      MergeFrom(from);
      MergeIntoDefault(MonsterExtraSchema(), from.View());
    }

    method ParseField(s: bytes, ghost ptr: nat, tag: nat, p: nat) returns (ok: bool, next: nat)
      requires Valid() && TagRead(s, ptr, tag, p)
      modifies this`templateId, this`unknown
      ensures Valid()
      ensures ok ==> Continues(MonsterExtraSchema(), s, old(View()), ptr, View(), next)
      ensures !ok ==> Fails(MonsterExtraSchema(), s, old(View()), ptr, View())
    {
      hide Continues, Fails, ValidVal, TagRead, Codec.Valid;
      ghost var sc, m := MonsterExtraSchema(), View();
      LeafSchemasOk();
      var v, r, added;
      if tag / 8 == 1 && tag % 256 == 8 {
        ok, v, next := ReadNumber(s, ptr, tag, p, Int32, sc, m, 0);
        templateId := v;
        assert View() == Put(m, 0, Num(v));
      } else {
        ok, added, r, next := ReadUnknown(s, ptr, tag, p, sc, m);
        if added { unknown := unknown + [r]; assert View() == m.(unknown := m.unknown + [r]); }
      }
    }

    method InternalParse(s: bytes) returns (ok: bool)
      requires Valid()
      modifies this`templateId, this`unknown
      ensures Valid() && Parsed(MonsterExtraSchema(), old(View()), s, ok, View())
    {
      hide Codec.Valid, Parse, AfterFailure, Fails, Parsed;
      var ptr := 0;
      ghost var m := View();
      while ptr < |s|
        invariant ptr <= |s| && Valid() && m == View()
        invariant Reached(MonsterExtraSchema(), s, old(View()), 0, m, ptr)
      {
        ghost var at := ptr;
        var tag, p;
        ok, tag, p := ReadTagAt(s, ptr);
        if ok { ok, ptr := ParseField(s, at, tag, p); } else { NoTurn(MonsterExtraSchema(), m, s, at); }
        if !ok {
          ReachedFails(MonsterExtraSchema(), s, old(View()), 0, m, at, View());
          FailsAtStart(MonsterExtraSchema(), s, old(View()), View());
          return;
        }
        ReachedNext(MonsterExtraSchema(), s, old(View()), 0, m, at, View(), ptr);
        m := View();
      }
      ReachedEnd(MonsterExtraSchema(), s, old(View()), m);
      return true;
    }

    method ByteSizeLong() returns (total: nat)
      requires Valid()
      modifies this`cachedSize
      ensures CachesRight()
      ensures total == ComputedSize(MonsterExtraSchema(), View()) == |Serialize(MonsterExtraSchema(), View())|
    {
      hide Serialize, ComputedSize, SlotBytes;
      var unknownSize := UnknownSize(unknown);
      total := FieldSize(1, Int32, templateId);
      total := total + unknownSize;
      cachedSize := ToCachedSize(total);
      WriteStart(MonsterExtraSchema(), View(), []);
      SizeStep(MonsterExtraSchema(), View(), 0);
      SizeEnd(MonsterExtraSchema(), View());
      ExactSize(MonsterExtraSchema(), View());
    }

    method InternalSerialize(target: bytes) returns (out: bytes)
      requires Valid()
      ensures out == target + Serialize(MonsterExtraSchema(), View())
    {
      hide Serialize, SlotBytes;
      var out1 := WriteField(1, Int32, templateId, target);
      WriteSlot(MonsterExtraSchema(), View(), 0, target, target, out1);
      out := WriteUnknown(unknown, out1);
      WriteEnd(MonsterExtraSchema(), View(), target, out1);
    }
  }
}
