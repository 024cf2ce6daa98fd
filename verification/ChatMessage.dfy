// SS_RelayChat and SS_BroadcastChat, which have the same five fields.
module ChatMessage {
  import opened Bytes
  import opened Wire
  import opened Codec
  import opened ComputedSizes
  import opened Failures
  import opened RoundTrip
  import opened Runtime
  import opened Messages

  class Chat {
    var sender: bytes
    var kind: int32 // the enum field `type`
    var msg: bytes
    var target: bytes
    var partyId: uint64
    var unknown: seq<Record>
    var cachedSize: int32

    ghost predicate Valid()
      reads this`sender, this`kind, this`msg, this`target, this`partyId, this`unknown
    {
      Codec.Valid(ChatSchema(), View())
    }

    ghost function View(): Msg
      reads this`sender, this`kind, this`msg, this`target, this`partyId, this`unknown
    {
      Msg([Str(sender), Num(kind), Str(msg), Str(target), Num(partyId)], unknown)
    }

    ghost predicate CachesRight()
      reads this
    {
      Valid() && cachedSize == ToCachedSize(ComputedSize(ChatSchema(), View()))
    }

    constructor ()
      ensures Valid() && View() == Default(ChatSchema())
    {
      sender, kind, msg, target, partyId, unknown, cachedSize := [], 0, [], [], 0, [], 0;
    }

    constructor Copy(from: Chat)
      requires from.Valid()
      ensures Valid() && View() == from.View()
    {
      cachedSize := 0;
      unknown := from.unknown;
      sender := if from.sender != [] then from.sender else [];
      msg := if from.msg != [] then from.msg else [];
      target := if from.target != [] then from.target else [];
      partyId, kind := from.partyId, from.kind;
    }

    method Clear()
      modifies this`sender, this`kind, this`msg, this`target, this`partyId, this`unknown
      ensures Valid() && View() == Default(ChatSchema())
    {
      sender, msg, target := [], [], [];
      partyId, kind := 0, 0;
      unknown := [];
    }

    method MergeFrom(from: Chat)
      requires Valid() && from.Valid() && from != this
      modifies this`sender, this`kind, this`msg, this`target, this`partyId, this`unknown
      ensures Valid() && View() == Merge(ChatSchema(), old(View()), from.View())
    {
      hide MergeVal, Merge, ValidVal;
      ChatMerge(View(), from.View());
      if from.sender != [] { sender := from.sender; }
      if from.msg != [] { msg := from.msg; }
      if from.target != [] { target := from.target; }
      if from.partyId != 0 { partyId := from.partyId; }
      if from.kind != 0 { kind := from.kind; }
      unknown := unknown + from.unknown;
    }

    method CopyFrom(from: Chat)
      requires Valid() && from.Valid()
      modifies this`sender, this`kind, this`msg, this`target, this`partyId, this`unknown
      ensures Valid() && View() == old(from.View())
    {
      if from == this { return; }
      Clear();
      MergeFrom(from);
      MergeIntoDefault(ChatSchema(), from.View());
    }

    /** The string cases of the switch. */
    method ParseText(s: bytes, ghost ptr: nat, tag: nat, p: nat) returns (ok: bool, next: nat)
      requires Valid() && TagRead(s, ptr, tag, p) && (tag == 10 || tag == 26 || tag == 34)
      modifies this`sender, this`msg, this`target
      ensures Valid()
      ensures ok ==> Continues(ChatSchema(), s, old(View()), ptr, View(), next)
      ensures !ok ==> Fails(ChatSchema(), s, old(View()), ptr, View())
    {
      hide Continues, Fails, ValidVal, TagRead, Codec.Valid;
      ghost var sc, m := ChatSchema(), View();
      FlatSchemasOk();
      var stored, t;
      if tag == 10 {
        ok, stored, t, next := ReadText(s, ptr, tag, p, sc, m, 0);
        if stored { sender := t; assert View() == Put(m, 0, Str(t)); }
      } else if tag == 26 {
        ok, stored, t, next := ReadText(s, ptr, tag, p, sc, m, 2);
        if stored { msg := t; assert View() == Put(m, 2, Str(t)); }
      } else {
        ok, stored, t, next := ReadText(s, ptr, tag, p, sc, m, 3);
        if stored { target := t; assert View() == Put(m, 3, Str(t)); }
      }
    }

    method ParseField(s: bytes, ghost ptr: nat, tag: nat, p: nat) returns (ok: bool, next: nat)
      requires Valid() && TagRead(s, ptr, tag, p)
      modifies this`sender, this`kind, this`msg, this`target, this`partyId, this`unknown
      ensures Valid()
      ensures ok ==> Continues(ChatSchema(), s, old(View()), ptr, View(), next)
      ensures !ok ==> Fails(ChatSchema(), s, old(View()), ptr, View())
    {
      hide Continues, Fails, ValidVal, TagRead, Codec.Valid;
      ghost var sc, m := ChatSchema(), View();
      FlatSchemasOk();
      var v, r, added;
      if (tag / 8 == 1 && tag % 256 == 10) || (tag / 8 == 3 && tag % 256 == 26) || (tag / 8 == 4 && tag % 256 == 34) {
        ok, next := ParseText(s, ptr, tag, p);
      } else if tag / 8 == 2 && tag % 256 == 16 {
        ok, v, next := ReadNumber(s, ptr, tag, p, Enum, sc, m, 1);
        if ok { kind := v; assert View() == Put(m, 1, Num(v)); }
      } else if tag / 8 == 5 && tag % 256 == 40 {
        ok, v, next := ReadNumber(s, ptr, tag, p, UInt64, sc, m, 4);
        partyId := v;
        assert View() == Put(m, 4, Num(v));
      } else {
        ok, added, r, next := ReadUnknown(s, ptr, tag, p, sc, m);
        if added { unknown := unknown + [r]; assert View() == m.(unknown := m.unknown + [r]); }
      }
    }

    method InternalParse(s: bytes) returns (ok: bool)
      requires Valid()
      modifies this`sender, this`kind, this`msg, this`target, this`partyId, this`unknown
      ensures Valid() && Parsed(ChatSchema(), old(View()), s, ok, View())
    {
      hide Codec.Valid, Parse, AfterFailure, Fails, Parsed;
      var ptr := 0;
      ghost var m := View();
      while ptr < |s|
        invariant ptr <= |s| && Valid() && m == View()
        invariant Reached(ChatSchema(), s, old(View()), 0, m, ptr)
      {
        ghost var at := ptr;
        var tag, p;
        ok, tag, p := ReadTagAt(s, ptr);
        if ok { ok, ptr := ParseField(s, at, tag, p); } else { NoTurn(ChatSchema(), m, s, at); }
        if !ok {
          ReachedFails(ChatSchema(), s, old(View()), 0, m, at, View());
          FailsAtStart(ChatSchema(), s, old(View()), View());
          return;
        }
        ReachedNext(ChatSchema(), s, old(View()), 0, m, at, View(), ptr);
        m := View();
      }
      ReachedEnd(ChatSchema(), s, old(View()), m);
      return true;
    }

    /** Strings first, then partyId, then the enum. */
    method ByteSizeLong() returns (total: nat)
      requires Valid()
      modifies this`cachedSize
      ensures CachesRight() && View() == old(View()) && total == ComputedSize(ChatSchema(), View())
    {
      hide ComputedSize, SlotBytes, ValidVal, Codec.Valid;
      ChatSize(View());
      var unknownSize := UnknownSize(unknown);
      total := TextFieldSize(1, sender) + TextFieldSize(3, msg) + TextFieldSize(4, target);
      total := total + FieldSize(5, UInt64, partyId) + FieldSize(2, Enum, kind);
      total := total + unknownSize;
      cachedSize := ToCachedSize(total);
    }

    method InternalSerialize(dest: bytes) returns (out: bytes)
      requires Valid() && Fits(ChatSchema(), View(), INT_MAX)
      ensures out == dest + Serialize(ChatSchema(), View())
    {
      hide Serialize, SlotBytes, ValidVal, FitsVal;
      ghost var sc, m := ChatSchema(), View();
      ShortTexts(m);
      var o1 := WriteTextField(1, sender, dest);
      WriteSlot(sc, m, 0, dest, dest, o1);
      var o2 := WriteField(2, Enum, kind, o1);
      WriteSlot(sc, m, 1, dest, o1, o2);
      var o3 := WriteTextField(3, msg, o2);
      WriteSlot(sc, m, 2, dest, o2, o3);
      var o4 := WriteTextField(4, target, o3);
      WriteSlot(sc, m, 3, dest, o3, o4);
      var o5 := WriteField(5, UInt64, partyId, o4);
      WriteSlot(sc, m, 4, dest, o4, o5);
      out := WriteUnknown(unknown, o5);
      WriteEnd(sc, m, dest, o5);
    }
  }

  lemma ChatMerge(a: Msg, b: Msg)
    requires Codec.Valid(ChatSchema(), a) && Codec.Valid(ChatSchema(), b)
    ensures |a.vals| == |b.vals| == 5
    ensures Merge(ChatSchema(), a, b) ==
            Msg([if b.vals[0] == Str([]) then a.vals[0] else b.vals[0],
                 if b.vals[1] == Num(0) then a.vals[1] else b.vals[1],
                 if b.vals[2] == Str([]) then a.vals[2] else b.vals[2],
                 if b.vals[3] == Str([]) then a.vals[3] else b.vals[3],
                 if b.vals[4] == Num(0) then a.vals[4] else b.vals[4]],
                a.unknown + b.unknown)
  {
    assert forall i :: 0 <= i < 5 ==>
          ValidVal(ChatSchema().slots[i], a.vals[i]) && ValidVal(ChatSchema().slots[i], b.vals[i]);
  }

  lemma ShortTexts(m: Msg)
    requires Codec.Valid(ChatSchema(), m) && Fits(ChatSchema(), m, INT_MAX)
    ensures forall i :: 0 <= i < 5 && m.vals[i].Str? ==> |m.vals[i].s| <= INT_MAX
  {
    var slots := ChatSchema().slots;
    assert FitsVal(slots[0], m.vals[0], INT_MAX) && FitsVal(slots[2], m.vals[2], INT_MAX) &&
      FitsVal(slots[3], m.vals[3], INT_MAX);
    assert ValidVal(slots[1], m.vals[1]) && ValidVal(slots[4], m.vals[4]);
  }

  lemma {:induction false} ChatSize(m: Msg)
    requires Codec.Valid(ChatSchema(), m)
    ensures RecordsOk(m.unknown)
    ensures forall i :: 0 <= i < 5 ==> ValidVal(ChatSchema().slots[i], m.vals[i])
    ensures var slots, vs := ChatSchema().slots, m.vals;
            ComputedSize(ChatSchema(), m) ==
            ComputedSlot(slots[0], vs[0]) + ComputedSlot(slots[1], vs[1]) + ComputedSlot(slots[2], vs[2]) +
            ComputedSlot(slots[3], vs[3]) + ComputedSlot(slots[4], vs[4]) + |Emit(m.unknown)|
  {
    hide ComputedSlot;
    var sc := ChatSchema();
    ComputedStart(sc, m);
    ComputedStep(sc, m, 0);
    ComputedStep(sc, m, 1);
    ComputedStep(sc, m, 2);
    ComputedStep(sc, m, 3);
    ComputedStep(sc, m, 4);
  }
}
