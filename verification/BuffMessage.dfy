// BuffData: scalars, a float kept by its raw bits, and a packed list with its own size cache.
module BuffMessage {
  import opened Bytes
  import opened Varints
  import opened Wire
  import opened Codec
  import opened ComputedSizes
  import opened Failures
  import opened RoundTrip
  import opened Runtime
  import opened Messages

  /** The packed loop; after a failure the values read so far stay. */
  method PackedUInt64Parser(payload: bytes) returns (ok: bool, ns: seq<nat>)
    ensures forall i :: 0 <= i < |ns| ==> ns[i] < TWO_64
    ensures DecodePacked(payload) == if ok then Some(ns) else None
    ensures !ok && PackedBefore(payload).Some? ==> ns == PackedBefore(payload).value
  {
    var ptr: nat := 0;
    ns := [];
    assert payload[0..] == payload;
    AppendUnits([], DecodePacked(payload));
    AppendUnits([], PackedBefore(payload));
    while ptr < |payload|
      invariant ptr <= |payload| && forall i :: 0 <= i < |ns| ==> ns[i] < TWO_64
      invariant DecodePacked(payload) == AppendTo(ns, DecodePacked(payload[ptr..]))
      invariant PackedBefore(payload) == AppendTo(ns, PackedBefore(payload[ptr..]))
    {
      var v := AccumulateVarint(payload[ptr..], 10, true);
      AppendUnits(ns, None);
      if v.None? { return false, ns; }
      PackedTurn(payload, ptr, ns);
      ns, ptr := ns + [v.value.0], ptr + v.value.1;
    }
    AppendUnits(ns, None);
    return true, ns;
  }

  lemma AppendUnits(ns: seq<nat>, r: Option<seq<nat>>)
    ensures AppendTo([], r) == r && AppendTo(ns, Some([])) == Some(ns)
  {
    assert ns + [] == ns;
    if r.Some? { assert [] + r.value == r.value; }
  }

  ghost function AppendTo(xs: seq<nat>, r: Option<seq<nat>>): Option<seq<nat>> {
    match r
    case None => None
    case Some(ys) => Some(xs + ys)
  }

  lemma PackedTurn(payload: bytes, ptr: nat, ns: seq<nat>)
    requires ptr < |payload| && ReadVarint(payload[ptr..], 10, true).Some?
    ensures var (v, n) := ReadVarint(payload[ptr..], 10, true).value;
            && AppendTo(ns, DecodePacked(payload[ptr..])) == AppendTo(ns + [v], DecodePacked(payload[ptr + n..]))
            && AppendTo(ns, PackedBefore(payload[ptr..])) == AppendTo(ns + [v], PackedBefore(payload[ptr + n..]))
  {
    var (v, n) := ReadVarint(payload[ptr..], 10, true).value;
    assert payload[ptr..][n..] == payload[ptr + n..];
    AppendTwice(ns, [v], DecodePacked(payload[ptr + n..]));
    AppendTwice(ns, [v], PackedBefore(payload[ptr + n..]));
  }

  lemma AppendTwice(xs: seq<nat>, ys: seq<nat>, r: Option<seq<nat>>)
    ensures AppendTo(xs, AppendTo(ys, r)) == AppendTo(xs + ys, r)
  {
    if r.Some? { assert xs + (ys + r.value) == (xs + ys) + r.value; }
  }

  /** WireFormatLite::UInt64Size of a repeated field. */
  method PackedSize(ns: seq<uint64>) returns (size: nat)
    ensures size == |EncodePacked(ns)|
  {
    size := 0;
    var i := 0;
    while i < |ns|
      invariant i <= |ns| && size + |EncodePacked(ns[i..])| == |EncodePacked(ns)|
    {
      assert ns[i..][1..] == ns[i + 1..];
      size := size + VarintSize64(ns[i]);
      i := i + 1;
    }
  }

  class BuffData {
    var buffId: uint64
    var remainTime: uint32 // the raw bits of the float
    var victims: seq<uint64>
    var unknown: seq<Record>
    var victimsCachedByteSize: int32
    var cachedSize: int32

    ghost predicate Valid()
      reads this`buffId, this`remainTime, this`victims, this`unknown
    {
      Codec.Valid(BuffDataSchema(), View())
    }

    ghost function View(): Msg
      reads this`buffId, this`remainTime, this`victims, this`unknown
    {
      Msg([Num(buffId), Num(remainTime), Nums(victims)], unknown)
    }

    /** The packed size cache and the message's own cached size are both right. */
    ghost predicate CachesRight()
      reads this
    {
      && Valid()
      && victimsCachedByteSize == ToCachedSize(|EncodePacked(victims)|)
      && cachedSize == ToCachedSize(ComputedSize(BuffDataSchema(), View()))
    }

    constructor ()
      ensures Valid() && View() == Default(BuffDataSchema())
    {
      buffId, remainTime, victims, unknown := 0, 0, [], [];
      victimsCachedByteSize, cachedSize := 0, 0;
    }

    constructor Copy(from: BuffData)
      requires from.Valid()
      ensures Valid() && View() == from.View()
    {
      victims := from.victims;
      victimsCachedByteSize, cachedSize := 0, 0;
      unknown := from.unknown;
      buffId, remainTime := from.buffId, from.remainTime;
    }

    method Clear()
      modifies this`buffId, this`remainTime, this`victims, this`unknown
      ensures Valid() && View() == Default(BuffDataSchema())
    {
      victims := [];
      buffId, remainTime := 0, 0;
      unknown := [];
    }

    method MergeFrom(from: BuffData)
      requires Valid() && from.Valid() && from != this
      modifies this`buffId, this`remainTime, this`victims, this`unknown
      ensures Valid() && View() == Merge(BuffDataSchema(), old(View()), from.View())
    {
      victims := victims + from.victims;
      if from.buffId != 0 { buffId := from.buffId; }
      if from.remainTime != 0 { remainTime := from.remainTime; }
      unknown := unknown + from.unknown;
      assert View().vals == Merge(BuffDataSchema(), old(View()), from.View()).vals;
    }

    method CopyFrom(from: BuffData)
      requires Valid() && from.Valid()
      modifies this`buffId, this`remainTime, this`victims, this`unknown
      ensures Valid() && View() == old(from.View())
    {
      if from == this { return; }
      Clear();
      MergeFrom(from);
      MergeIntoDefault(BuffDataSchema(), from.View());
    }

    /** The tag switch: one record, starting at `ptr` with the tag already read. */
    method ParseField(s: bytes, ghost ptr: nat, tag: nat, p: nat) returns (ok: bool, next: nat)
      requires Valid() && TagRead(s, ptr, tag, p)
      modifies this`buffId, this`remainTime, this`victims, this`unknown
      ensures Valid()
      ensures ok ==> Continues(BuffDataSchema(), s, old(View()), ptr, View(), next)
      ensures !ok ==> Fails(BuffDataSchema(), s, old(View()), ptr, View())
    {
      hide Continues, Fails, ValidVal, TagRead, Codec.Valid;
      ghost var sc, m := BuffDataSchema(), View();
      FlatSchemasOk();
      var v, r, added;
      if tag / 8 == 1 && tag % 256 == 8 {
        ok, v, next := ReadNumber(s, ptr, tag, p, UInt64, sc, m, 0);
        buffId := v;
        assert View() == Put(m, 0, Num(v));
      } else if tag / 8 == 2 && tag % 256 == 21 {
        ok, v, next := ReadNumber(s, ptr, tag, p, Float32, sc, m, 1);
        remainTime := v;
        assert View() == Put(m, 1, Num(v));
      } else if tag / 8 == 3 && (tag % 256 == 26 || tag % 256 == 24) {
        ok, next := ParseVictims(s, ptr, tag, p);
      } else {
        ok, added, r, next := ReadUnknown(s, ptr, tag, p, sc, m);
        if added { unknown := unknown + [r]; assert View() == m.(unknown := m.unknown + [r]); }
      }
    }

    /** repeated uint64 victims = 3, packed (tag 26) or not (tag 24). */
    method ParseVictims(s: bytes, ghost ptr: nat, tag: nat, p: nat) returns (ok: bool, next: nat)
      requires Valid() && TagRead(s, ptr, tag, p) && (tag == 24 || tag == 26)
      modifies this`victims
      ensures Valid()
      ensures ok ==> Continues(BuffDataSchema(), s, old(View()), ptr, View(), next)
      ensures !ok ==> Fails(BuffDataSchema(), s, old(View()), ptr, View())
    {
      hide Parse, AfterFailure, Continues, Fails, DecodePacked, PackedBefore, ReadRecord, Codec.Valid;
      ghost var sc, m := BuffDataSchema(), View();
      FlatSchemasOk();
      VictimsOf(m);
      if tag == 26 {
        var payload;
        ok, payload, next := ReadPayloadAt(s, ptr, tag, p);
        if !ok { BrokenField(sc, m, s, ptr, tag, p, 2); assert View() == Put(m, 2, Nums(victims)); return; }
        FieldTurn(sc, m, s, ptr, Record(3, Len(payload)), next, 2);
        var vs;
        ok, vs := PackedUInt64Parser(payload);
        victims := victims + vs;
        PutValid(sc, m, 2, Nums(victims));
      } else {
        var v;
        ghost var raw;
        ok, v, next, raw := ReadVarintAt(s, ptr, tag, p, true);
        victims := victims + [v];
        PutValid(sc, m, 2, Nums(victims));
        if ok {
          FieldTurn(sc, m, s, ptr, Record(3, Varint(raw)), next, 2);
        } else {
          BrokenField(sc, m, s, ptr, tag, p, 2);
        }
      }
      assert View() == Put(m, 2, Nums(victims));
    }

    /** Merges the records of `s` into this message. */
    method InternalParse(s: bytes) returns (ok: bool)
      requires Valid()
      modifies this`buffId, this`remainTime, this`victims, this`unknown
      ensures Valid() && Parsed(BuffDataSchema(), old(View()), s, ok, View())
    {
      hide Codec.Valid, Parse, AfterFailure, Fails, Parsed;
      var ptr := 0;
      ghost var m := View();
      while ptr < |s|
        invariant ptr <= |s| && Valid() && m == View()
        invariant Reached(BuffDataSchema(), s, old(View()), 0, m, ptr)
      {
        ghost var at := ptr;
        var tag, p;
        ok, tag, p := ReadTagAt(s, ptr);
        if ok { ok, ptr := ParseField(s, at, tag, p); } else { NoTurn(BuffDataSchema(), m, s, at); }
        if !ok {
          ReachedFails(BuffDataSchema(), s, old(View()), 0, m, at, View());
          FailsAtStart(BuffDataSchema(), s, old(View()), View());
          return;
        }
        ReachedNext(BuffDataSchema(), s, old(View()), 0, m, at, View(), ptr);
        m := View();
      }
      ReachedEnd(BuffDataSchema(), s, old(View()), m);
      return true;
    }

    /** The packed size and the sum over all fields. */
    method Sizes() returns (dataSize: nat, total: nat)
      requires Valid()
      ensures dataSize == |EncodePacked(victims)| && total == ComputedSize(BuffDataSchema(), View())
    {
      hide ComputedSize, EncodeVarint, EmitRecord, EncodePacked, ValidVal, Codec.Valid, PackedPrefixSize;
      BuffDataSize(buffId, remainTime, victims, unknown);
      var unknownSize := UnknownSize(unknown);
      total := 0;
      dataSize := PackedSize(victims);
      if dataSize > 0 { total := total + 1 + PackedPrefixSize(dataSize); }
      total := total + dataSize;
      if buffId != 0 { total := total + 1 + NumberSize(UInt64, buffId); }
      if remainTime != 0 { total := total + 1 + 4; }
      total := total + unknownSize;
    }

    /** Fills both caches on the way. */
    method ByteSizeLong() returns (total: nat)
      requires Valid()
      modifies this`victimsCachedByteSize, this`cachedSize
      ensures Valid() && View() == old(View())
      ensures total == ComputedSize(BuffDataSchema(), View()) && CachesRight()
    {
      hide ComputedSize, Codec.Valid;
      var dataSize;
      dataSize, total := Sizes();
      victimsCachedByteSize := ToCachedSize(dataSize);
      cachedSize := ToCachedSize(total);
    }

    /** Writes the message, trusting the cached length of the packed list. */
    method InternalSerialize(target: bytes) returns (out: bytes)
      requires Valid() && CachesRight() && Fits(BuffDataSchema(), View(), INT_MAX)
      ensures out == target + Serialize(BuffDataSchema(), View())
    {
      hide Serialize, SlotBytes;
      ghost var sc, m := BuffDataSchema(), View();
      var o1 := WriteField(1, UInt64, buffId, target);
      WriteSlot(sc, m, 0, target, target, o1);
      var o2 := WriteField(2, Float32, remainTime, o1);
      WriteSlot(sc, m, 1, target, o1, o2);
      var o3 := SerializeVictims(o2);
      WriteSlot(sc, m, 2, target, o2, o3);
      out := WriteUnknown(unknown, o3);
      WriteEnd(sc, m, target, o3);
    }

    /** WriteUInt64Packed: the cached length, then one varint after the other. */
    method SerializeVictims(target: bytes) returns (out: bytes)
      requires Valid() && CachesRight() && Fits(BuffDataSchema(), View(), INT_MAX)
      ensures out == target + SlotBytes(Packed(3), Nums(victims))
    {
      hide EncodeVarint, EmitRecord, SlotBytes, Codec.Valid, ComputedSize, Fits;
      PackedBytes(3, victims);
      VictimsFit(View());
      PackedEmpty(victims);
      CachedSizeReadsBack(|EncodePacked(victims)|);
      out := target;
      if victimsCachedByteSize > 0 {
        out := WriteHeader(3, victimsCachedByteSize, target);
        HeaderAndBody(3, EncodePacked(victims), target, out);
        ghost var head := out;
        var i := 0;
        assert victims[0..] == victims;
        while i < |victims|
          invariant i <= |victims| && out + EncodePacked(victims[i..]) == head + EncodePacked(victims)
        {
          assert victims[i..][1..] == victims[i + 1..];
          Assoc(out, EncodeVarint(victims[i]), EncodePacked(victims[i + 1..]));
          out := UnsafeVarint(victims[i], out);
          i := i + 1;
        }
        assert out + [] == out;
      }
    }
  }

  lemma BuffDataSize(buffId: uint64, remainTime: uint32, victims: seq<uint64>, unknown: seq<Record>)
    requires Codec.Valid(BuffDataSchema(), Msg([Num(buffId), Num(remainTime), Nums(victims)], unknown))
    ensures RecordsOk(unknown)
    ensures var data := |EncodePacked(victims)|;
            ComputedSize(BuffDataSchema(), Msg([Num(buffId), Num(remainTime), Nums(victims)], unknown)) ==
            (if buffId == 0 then 0 else 1 + |EmitBody(EncodeNumber(UInt64, buffId))|) +
            (if remainTime == 0 then 0 else 1 + 4) +
            (if data == 0 then 0 else 1 + PackedPrefixSize(data)) + data + |Emit(unknown)|
  {
    hide EncodeVarint, SlotBytes, EncodePacked, PackedPrefixSize;
    BuffDataSizeBySlots(Msg([Num(buffId), Num(remainTime), Nums(victims)], unknown));
    NumberSlotSize(1, UInt64, buffId);
    NumberSlotSize(2, Float32, remainTime);
  }

  lemma VictimsOf(m: Msg)
    requires Codec.Valid(BuffDataSchema(), m)
    ensures |m.vals| == 3 && ValidVal(Packed(3), m.vals[2])
  {
    assert BuffDataSchema().slots[2] == Packed(3);
  }

  lemma VictimsFit(m: Msg)
    requires Codec.Valid(BuffDataSchema(), m) && Fits(BuffDataSchema(), m, INT_MAX)
    ensures m.vals[2].Nums? && |EncodePacked(m.vals[2].ns)| <= INT_MAX
  {
    assert FitsVal(BuffDataSchema().slots[2], m.vals[2], INT_MAX);
  }

  lemma BuffDataSizeBySlots(m: Msg)
    requires Codec.Valid(BuffDataSchema(), m)
    ensures forall i :: 0 <= i < 3 ==> ValidVal(BuffDataSchema().slots[i], m.vals[i])
    ensures var slots := BuffDataSchema().slots;
            ComputedSize(BuffDataSchema(), m) ==
            ComputedSlot(slots[0], m.vals[0]) + ComputedSlot(slots[1], m.vals[1]) +
            ComputedSlot(slots[2], m.vals[2]) + |Emit(m.unknown)|
  {
    hide ComputedSlot;
    var sc := BuffDataSchema();
    ComputedStart(sc, m);
    ComputedStep(sc, m, 0);
    ComputedStep(sc, m, 1);
    ComputedStep(sc, m, 2);
  }

  /** For BuffData the computed size is right exactly when the prefix of its packed list is. */
  lemma {:induction false} BuffDataSizeIff(m: Msg)
    requires Codec.Valid(BuffDataSchema(), m)
    ensures m.vals[2].Nums?
    ensures ComputedSize(BuffDataSchema(), m) == |Serialize(BuffDataSchema(), m)| <==>
            PackedPrefixExact(|EncodePacked(m.vals[2].ns)|)
  {
    hide Serialize, ComputedSize, SlotBytes, EncodeVarint, EmitRecord, PackedPrefixSize, PackedPrefixExact;
    var sc := BuffDataSchema();
    BuffDataSizeBySlots(m);
    WriteStart(sc, m, []);
    SizeStep(sc, m, 0);
    SizeStep(sc, m, 1);
    SizeStep(sc, m, 2);
    SizeEnd(sc, m);
    var ns := m.vals[2].ns;
    PackedBytes(3, ns);
    PackedEmpty(ns);
    PackedPrefixIff(|EncodePacked(ns)|);
    EmptyIsExact();
    LenRecordSize(3, EncodePacked(ns));
  }
}
