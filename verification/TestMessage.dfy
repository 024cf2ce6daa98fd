// S_TEST: a message over repeated BuffData submessages, with two levels of cached
// sizes and the run loop that reads consecutive submessages without going back to
// the tag switch.
module TestMessage {
  import opened Bytes
  import opened Varints
  import opened Wire
  import opened Codec
  import opened ComputedSizes
  import opened Failures
  import opened RoundTrip
  import opened Runtime
  import opened Messages
  import opened BuffMessage

  /** The elements hold the values `ms`. */
  ghost predicate BuffsHold(bs: seq<BuffData>, ms: seq<Msg>)
    reads bs
  {
    |bs| == |ms| && forall i :: 0 <= i < |bs| ==> bs[i].View() == ms[i]
  }

  ghost predicate BuffCachesRight(bs: seq<BuffData>, k: nat)
    requires k <= |bs|
    reads bs
  {
    forall i :: 0 <= i < k ==> bs[i].CachesRight()
  }

  lemma BuffsOf(m: Msg)
    requires Codec.Valid(TestSchema(), m)
    ensures m.vals[3].Subs? && ValidVal(BUFFS, m.vals[3])
    ensures Fits(TestSchema(), m, INT_MAX) ==> FitsVal(BUFFS, m.vals[3], INT_MAX)
  {
    assert TestSchema().slots[3] == BUFFS;
  }

  lemma BuffValid(ms: seq<Msg>, i: nat)
    requires ValidVal(BUFFS, Subs(ms)) && i < |ms|
    ensures Codec.Valid(BuffDataSchema(), ms[i])
  {}

  const BUFFS: Slot := Repeated(4, BuffDataSchema())

  /** InternalWriteMessage(4, buff, buff.GetCachedSize(), target). */
  method WriteBuff(bs: seq<BuffData>, ghost ms: seq<Msg>, i: nat, target: bytes) returns (out: bytes)
    requires BuffsHold(bs, ms) && ValidVal(BUFFS, Subs(ms)) && FitsVal(BUFFS, Subs(ms), INT_MAX)
    requires i < |bs| && BuffCachesRight(bs, |bs|)
    ensures Codec.Valid(BuffDataSchema(), ms[i])
    ensures out == target + EmitRecord(Record(4, Len(Serialize(BuffDataSchema(), ms[i]))))
  {
    BuffFits(ms, i);
    hide EncodeVarint, EmitRecord, Serialize, ComputedSize, Fits, FitsVal;
    ghost var body := Serialize(BuffDataSchema(), ms[i]);
    FitsSize(BuffDataSchema(), ms[i]);
    CachedSizeReadsBack(|body|);
    out := WriteHeader(4, bs[i].cachedSize, target);
    HeaderAndBody(4, body, target, out);
    out := bs[i].InternalSerialize(out);
  }

  /** MessageSize of one element; its caches are filled and no other element changes. */
  method SizeBuff(bs: seq<BuffData>, ghost ms: seq<Msg>, i: nat) returns (size: nat)
    requires BuffsHold(bs, ms) && ValidVal(BUFFS, Subs(ms)) && i < |bs| && BuffCachesRight(bs, i)
    modifies bs
    ensures BuffsHold(bs, ms) && BuffCachesRight(bs, i + 1)
    ensures Codec.Valid(BuffDataSchema(), ms[i]) && size == ComputedSize(BuffDataSchema(), ms[i])
  {
    hide ComputedSize, Codec.Valid, ValidVal;
    BuffValid(ms, i);
    label before:
    size := bs[i].ByteSizeLong();
    forall j | 0 <= j < |bs|
      ensures bs[j].View() == ms[j]
      ensures j < i + 1 ==> bs[j].CachesRight()
    {
      if bs[j] != bs[i] { assert unchanged@before(bs[j]); }
    }
  }

  /** A new element that merges an existing one, as RepeatedPtrField does for every element it appends. */
  method CloneBuff(from: BuffData) returns (b: BuffData)
    requires from.Valid()
    ensures fresh(b) && b.Valid() && b.View() == from.View()
  {
    hide Merge, Codec.Valid;
    b := new BuffData();
    b.MergeFrom(from);
    MergeIntoDefault(BuffDataSchema(), from.View());
  }

  class STest {
    var id: uint64
    var hp: uint32
    var attack: uint32
    var buffs: seq<BuffData>
    var unknown: seq<Record>
    var cachedSize: int32

    ghost var views: seq<Msg> // what the elements of buffs hold

    ghost predicate Valid()
      reads this`id, this`hp, this`attack, this`buffs, this`views, this`unknown, buffs
    {
      BuffsHold(buffs, views) && Codec.Valid(TestSchema(), View())
    }

    ghost function View(): Msg
      reads this`id, this`hp, this`attack, this`views, this`unknown
    {
      Msg([Num(id), Num(hp), Num(attack), Subs(views)], unknown)
    }

    /** Every cache reachable from this message is right. */
    ghost predicate CachesRight()
      requires Valid()
      reads this, buffs
    {
      BuffCachesRight(buffs, |buffs|) && cachedSize == ToCachedSize(ComputedSize(TestSchema(), View()))
    }

    constructor ()
      ensures Valid() && View() == Default(TestSchema())
    {
      id, hp, attack, buffs, unknown, cachedSize := 0, 0, 0, [], [], 0;
      views := [];
    }

    /** Copies of the elements, then a block copy of the scalars. */
    constructor Copy(from: STest)
      requires from.Valid()
      ensures Valid() && View() == from.View() && forall k :: 0 <= k < |buffs| ==> fresh(buffs[k])
    {
      buffs, views, unknown, cachedSize := [], [], from.unknown, 0;
      id, hp, attack := from.id, from.hp, from.attack;
      new;
      hide Codec.Valid, ValidVal;
      BuffsOf(from.View());
      MergeBuffs(from.buffs, from.views);
      assert [] + from.views == from.views;
    }

    method Clear()
      modifies this`id, this`hp, this`attack, this`buffs, this`views, this`unknown
      ensures Valid() && View() == Default(TestSchema())
    {
      buffs, views := [], [];
      id, hp, attack := 0, 0, 0;
      unknown := [];
    }

    /** RepeatedPtrField::MergeFrom: appends a fresh copy of every element. */
    method MergeBuffs(from: seq<BuffData>, ghost added: seq<Msg>)
      requires BuffsHold(buffs, views) && BuffsHold(from, added)
      requires ValidVal(BUFFS, Subs(added))
      modifies this`buffs, this`views
      ensures BuffsHold(buffs, views) && views == old(views) + added
      ensures |buffs| == |old(buffs)| + |from| && buffs[..|old(buffs)|] == old(buffs)
      ensures forall k :: |old(buffs)| <= k < |buffs| ==> fresh(buffs[k])
    {
      hide ValidVal, Merge, Codec.Valid;
      var i := 0;
      while i < |from|
        invariant i <= |from| && BuffsHold(buffs, views) && BuffsHold(from, added)
        invariant |buffs| == |old(buffs)| + i && buffs[..|old(buffs)|] == old(buffs)
        invariant forall k :: |old(buffs)| <= k < |buffs| ==> fresh(buffs[k])
        invariant views == old(views) + added[..i]
      {
        BuffValid(added, i);
        var b := CloneBuff(from[i]);
        assert old(views) + added[..i] + [added[i]] == old(views) + added[..i + 1];
        buffs, views := buffs + [b], views + [added[i]];
        i := i + 1;
      }
      assert added[..i] == added;
    }

    method MergeFrom(from: STest)
      requires Valid() && from.Valid() && from != this
      modifies this`id, this`hp, this`attack, this`buffs, this`views, this`unknown
      ensures Valid() && View() == Merge(TestSchema(), old(View()), old(from.View()))
      ensures |old(buffs)| <= |buffs| && buffs[..|old(buffs)|] == old(buffs)
      ensures forall k :: |old(buffs)| <= k < |buffs| ==> fresh(buffs[k])
    {
      BuffsOf(from.View());
      MergeBuffs(from.buffs, from.views);
      if from.id != 0 { id := from.id; }
      if from.hp != 0 { hp := from.hp; }
      if from.attack != 0 { attack := from.attack; }
      unknown := unknown + from.unknown;
      assert View().vals == Merge(TestSchema(), old(View()), old(from.View())).vals;
    }

    method CopyFrom(from: STest)
      requires Valid() && from.Valid()
      modifies this`id, this`hp, this`attack, this`buffs, this`views, this`unknown
      ensures Valid() && View() == old(from.View())
    {
      if from == this { return; }
      Clear();
      MergeFrom(from);
      MergeIntoDefault(TestSchema(), old(from.View()));
    }

    /** _internal_add_buffs: a fresh element at the end. */
    method AddBuffs() returns (b: BuffData)
      requires Valid()
      modifies this`buffs, this`views
      ensures Valid() && fresh(b) && buffs == old(buffs) + [b] && b.Valid() && b.View() == Default(BuffDataSchema())
      ensures views == old(views) + [b.View()] && View() == PutSub(old(View()), 3, b.View())
    {
      hide ValidVal;
      b := new BuffData();
      PutSubValid(TestSchema(), View(), 3, b.View());
      buffs, views := buffs + [b], views + [b.View()];
      assert View() == PutSub(old(View()), 3, b.View());
    }

    /** The last element parses `payload`; the elements before it keep their values. */
    method ParseLastBuff(payload: bytes) returns (ok: bool, ghost x: Msg)
      requires Valid() && buffs != [] && buffs[|buffs| - 1] !in buffs[..|buffs| - 1]
      requires buffs[|buffs| - 1].Valid()
      modifies this`views, buffs[|buffs| - 1]
      ensures BuffsHold(buffs, views) && Codec.Valid(BuffDataSchema(), x)
      ensures views == old(views)[..|old(views)| - 1] + [x]
      ensures old(|views| == |buffs|)
      ensures Parsed(BuffDataSchema(), old(buffs[|buffs| - 1].View()), payload, ok, x)
    {
      hide Parsed, Codec.Valid;
      var last := |buffs| - 1;
      label before:
      ok := buffs[last].InternalParse(payload);
      x := buffs[last].View();
      views := views[..last] + [x];
      forall j | 0 <= j < |buffs|
        ensures buffs[j].View() == views[j]
      {
        if j < last { assert buffs[j] in buffs[..last]; assert unchanged@before(buffs[j]); }
      }
    }

    /** ParseMessage(_internal_add_buffs(), ptr): the record at `ptr`, its tag already read. */
    method ParseAddedBuff(s: bytes, ghost ptr: nat, tag: nat, p: nat) returns (ok: bool, next: nat)
      requires Valid() && TagRead(s, ptr, tag, p) && tag == 34
      modifies this`buffs, this`views
      ensures Valid()
      ensures ok ==> Continues(TestSchema(), s, old(View()), ptr, View(), next)
      ensures !ok ==> Fails(TestSchema(), s, old(View()), ptr, View())
    {
      hide Continues, Fails, ValidVal, Parsed, RecordRead, Codec.Valid, BuffsHold;
      ghost var m := View();
      TestSchemaOk();
      var b := AddBuffs();
      var payload;
      ok, payload, next := ReadPayloadAt(s, ptr, tag, p);
      if !ok { BrokenSub(TestSchema(), m, s, ptr, tag, p, 3); return; }
      ghost var x;
      assert buffs[..|buffs| - 1] == old(buffs);
      assert views == m.vals[3].ms + [Default(BuffDataSchema())] && views[..|views| - 1] == m.vals[3].ms;
      ok, x := ParseLastBuff(payload);
      assert views == m.vals[3].ms + [x];
      assert View() == PutSub(m, 3, x);
      PutSubValid(TestSchema(), m, 3, x);
      SubTurn(TestSchema(), m, s, ptr, 4, payload, next, 3, ok, x);
    }

    /**
     * The run loop: `ptr -= 1; do { ptr += 1; ... } while (ExpectTag<34>(ptr))`. `available` is
     * DataAvailable, which may also be false at any buffer seam; the run then ends early and the tag
     * switch takes over. For every input and every such choice this continues the reference parse.
     */
    method ParseBuffs(s: bytes, ghost start: nat, tag: nat, p: nat) returns (ok: bool, ptr: nat)
      requires Valid() && TagRead(s, start, tag, p) && tag == 34
      modifies this`buffs, this`views
      ensures Valid()
      ensures ok ==> Continues(TestSchema(), s, old(View()), start, View(), ptr)
      ensures !ok ==> Fails(TestSchema(), s, old(View()), start, View())
    {
      ghost var record, m := start, View();
      ptr := p - 1;
      while true
        invariant ptr + 1 <= |s| && Valid() && TagRead(s, record, 34, ptr + 1)
        invariant Reached(TestSchema(), s, old(View()), start, m, record) && m == View()
        decreases |s| - record
      {
        ptr := ptr + 1;
        ok, ptr := ParseAddedBuff(s, record, 34, ptr);
        if !ok { ReachedFails(TestSchema(), s, old(View()), start, m, record, View()); return; }
        ReachedNext(TestSchema(), s, old(View()), start, m, record, View(), ptr);
        m := View();
        var available: bool := *;
        if !available || ptr >= |s| { break; }
        if s[ptr] != 34 { break; }
        ExpectTag(s, ptr);
        record := ptr;
      }
    }

    /** The scalar cases of the switch: fields 1 to 3. */
    method ParseScalar(s: bytes, ghost ptr: nat, tag: nat, p: nat) returns (ok: bool, next: nat)
      requires Valid() && TagRead(s, ptr, tag, p) && (tag == 8 || tag == 16 || tag == 24)
      modifies this`id, this`hp, this`attack
      ensures Valid()
      ensures ok ==> Continues(TestSchema(), s, old(View()), ptr, View(), next)
      ensures !ok ==> Fails(TestSchema(), s, old(View()), ptr, View())
    {
      hide Continues, Fails, ValidVal, TagRead, BuffsHold;
      ghost var sc, m := TestSchema(), View();
      TestSchemaOk();
      var v;
      if tag == 8 {
        ok, v, next := ReadNumber(s, ptr, tag, p, UInt64, sc, m, 0);
        id := v;
        assert View() == Put(m, 0, Num(v));
      } else if tag == 16 {
        ok, v, next := ReadNumber(s, ptr, tag, p, UInt32, sc, m, 1);
        hp := v;
        assert View() == Put(m, 1, Num(v));
      } else {
        ok, v, next := ReadNumber(s, ptr, tag, p, UInt32, sc, m, 2);
        attack := v;
        assert View() == Put(m, 2, Num(v));
      }
    }

    /** The tag switch: one record or one run of submessages, starting at `ptr` with the tag already read. */
    method ParseField(s: bytes, ghost ptr: nat, tag: nat, p: nat) returns (ok: bool, next: nat)
      requires Valid() && TagRead(s, ptr, tag, p)
      modifies this`id, this`hp, this`attack, this`buffs, this`views, this`unknown
      ensures Valid()
      ensures ok ==> Continues(TestSchema(), s, old(View()), ptr, View(), next)
      ensures !ok ==> Fails(TestSchema(), s, old(View()), ptr, View())
    {
      hide Continues, Fails, ValidVal, TagRead, BuffsHold;
      ghost var m := View();
      if (tag / 8 == 1 && tag % 256 == 8) || (tag / 8 == 2 && tag % 256 == 16) || (tag / 8 == 3 && tag % 256 == 24) {
        ok, next := ParseScalar(s, ptr, tag, p);
      } else if tag / 8 == 4 && tag % 256 == 34 {
        ok, next := ParseBuffs(s, ptr, tag, p);
      } else {
        var r, added;
        ok, added, r, next := ReadUnknown(s, ptr, tag, p, TestSchema(), m);
        if added { unknown := unknown + [r]; assert View() == m.(unknown := m.unknown + [r]); }
      }
    }

    method InternalParse(s: bytes) returns (ok: bool)
      requires Valid()
      modifies this`id, this`hp, this`attack, this`buffs, this`views, this`unknown
      ensures Valid() && Parsed(TestSchema(), old(View()), s, ok, View())
    {
      hide Codec.Valid, Parse, AfterFailure, Fails, Parsed;
      var ptr := 0;
      ghost var m := View();
      while ptr < |s|
        invariant ptr <= |s| && Valid() && m == View()
        invariant Reached(TestSchema(), s, old(View()), 0, m, ptr)
      {
        ghost var at := ptr;
        var tag, p;
        ok, tag, p := ReadTagAt(s, ptr);
        if ok { ok, ptr := ParseField(s, at, tag, p); } else { NoTurn(TestSchema(), m, s, at); }
        if !ok {
          ReachedFails(TestSchema(), s, old(View()), 0, m, at, View());
          FailsAtStart(TestSchema(), s, old(View()), View());
          return;
        }
        ReachedNext(TestSchema(), s, old(View()), 0, m, at, View(), ptr);
        m := View();
      }
      ReachedEnd(TestSchema(), s, old(View()), m);
      return true;
    }

    /** Sums the elements, repeated field first; every element's caches are filled on the way. */
    method BuffsSize() returns (total: nat)
      requires BuffsHold(buffs, views) && ValidVal(BUFFS, Subs(views))
      modifies buffs
      ensures BuffsHold(buffs, views) && BuffCachesRight(buffs, |buffs|)
      ensures total == ComputedSlot(BUFFS, Subs(views))
    {
      hide ComputedSize, LengthDelimitedSize, ValidVal;
      total := 1 * |buffs|;
      var i := 0;
      while i < |buffs|
        invariant i <= |buffs| && BuffsHold(buffs, views) && BuffCachesRight(buffs, i)
        invariant total == |buffs| - i + ComputedSubs(4, BuffDataSchema(), views, i)
      {
        var size := SizeBuff(buffs, views, i);
        total := total + LengthDelimitedSize(size);
        i := i + 1;
      }
    }

    /** The sum over all fields; the element caches are filled on the way. */
    method TotalSize() returns (total: nat)
      requires Valid()
      modifies buffs
      ensures Valid() && View() == old(View()) && BuffCachesRight(buffs, |buffs|)
      ensures total == ComputedSize(TestSchema(), View())
    {
      hide ComputedSize, SlotBytes, ValidVal, BuffsHold, BuffCachesRight;
      BuffsOf(View());
      TestSize(View());
      var unknownSize := UnknownSize(unknown);
      total := BuffsSize();
      total := total + FieldSize(1, UInt64, id) + FieldSize(2, UInt32, hp) + FieldSize(3, UInt32, attack);
      total := total + unknownSize;
    }

    /** One call fills every cache reachable from this message. */
    method ByteSizeLong() returns (total: nat)
      requires Valid()
      modifies this`cachedSize, buffs
      ensures Valid() && View() == old(View()) && CachesRight()
      ensures total == ComputedSize(TestSchema(), View())
    {
      hide ComputedSize, Codec.Valid, BuffData.CachesRight;
      total := TotalSize();
      label before:
      cachedSize := ToCachedSize(total);
      forall j | 0 <= j < |buffs|
        ensures buffs[j].View() == views[j] && buffs[j].CachesRight()
      {
        assert unchanged@before(buffs[j]);
      }
    }

    /** Writes every element with the length its own cache holds. */
    method SerializeBuffs(target: bytes) returns (out: bytes)
      requires BuffsHold(buffs, views) && BuffCachesRight(buffs, |buffs|)
      requires ValidVal(BUFFS, Subs(views)) && FitsVal(BUFFS, Subs(views), INT_MAX)
      ensures out == target + SlotBytes(BUFFS, Subs(views))
    {
      hide EmitRecord, Serialize, FitsVal, ValidVal, BuffCachesRight, EncodeVarint, Emit, Codec.Valid;
      out := target;
      var i := 0;
      while i < |buffs|
        invariant i <= |buffs| && out == target + SubsUpTo(4, BuffDataSchema(), views, i)
      {
        ghost var before := out;
        out := WriteBuff(buffs, views, i, out);
        SubsWriteNext(4, BuffDataSchema(), views, i, target, before, out);
        i := i + 1;
      }
      SubsUpToAll(4, BuffDataSchema(), views);
    }

    /** Trusts every cached length; with the caches right this is the reference serializer. */
    method InternalSerialize(target: bytes) returns (out: bytes)
      requires Valid() && CachesRight() && Fits(TestSchema(), View(), INT_MAX)
      ensures out == target + Serialize(TestSchema(), View())
    {
      hide Serialize, SlotBytes, BuffsHold, BuffCachesRight, ValidVal;
      ghost var sc, m := TestSchema(), View();
      BuffsOf(m);
      var o1 := WriteField(1, UInt64, id, target);
      WriteSlot(sc, m, 0, target, target, o1);
      var o2 := WriteField(2, UInt32, hp, o1);
      WriteSlot(sc, m, 1, target, o1, o2);
      var o3 := WriteField(3, UInt32, attack, o2);
      WriteSlot(sc, m, 2, target, o2, o3);
      var o4 := SerializeBuffs(o3);
      WriteSlot(sc, m, 3, target, o3, o4);
      out := WriteUnknown(unknown, o4);
      WriteEnd(sc, m, target, o4);
    }

    /**
     * SerializeToString: one ByteSizeLong on the root, then the trusting serializer. It writes every
     * message whose encoding is at most INT_MAX bytes, whatever the caches held before, and no other.
     */
    method SerializeToString() returns (ok: bool, out: bytes)
      requires Valid()
      modifies this`cachedSize, buffs
      ensures Valid() && View() == old(View())
      ensures ok == (|Serialize(TestSchema(), View())| <= 2147483647)
      ensures out == if ok then Serialize(TestSchema(), View()) else []
    {
      hide Serialize, ComputedSize, Codec.Valid, Fits;
      out := [];
      var total := ByteSizeLong();
      SizeAgreement(TestSchema(), View());
      ok := total <= INT_MAX;
      if ok {
        out := InternalSerialize([]);
        assert [] + Serialize(TestSchema(), View()) == Serialize(TestSchema(), View());
      }
    }
  }

  lemma BuffFits(ms: seq<Msg>, i: nat)
    requires ValidVal(BUFFS, Subs(ms)) && FitsVal(BUFFS, Subs(ms), INT_MAX) && i < |ms|
    ensures Codec.Valid(BuffDataSchema(), ms[i]) && Fits(BuffDataSchema(), ms[i], INT_MAX)
    ensures |Serialize(BuffDataSchema(), ms[i])| <= INT_MAX
  {}

  lemma {:induction false} TestSize(m: Msg)
    requires Codec.Valid(TestSchema(), m)
    ensures RecordsOk(m.unknown) && forall i :: 0 <= i < 4 ==> ValidVal(TestSchema().slots[i], m.vals[i])
    ensures var slots := TestSchema().slots;
            ComputedSize(TestSchema(), m) ==
            ComputedSlot(slots[0], m.vals[0]) + ComputedSlot(slots[1], m.vals[1]) +
            ComputedSlot(slots[2], m.vals[2]) + ComputedSlot(slots[3], m.vals[3]) + |Emit(m.unknown)|
  {
    hide ComputedSlot;
    var sc := TestSchema();
    ComputedStart(sc, m);
    ComputedStep(sc, m, 0);
    ComputedStep(sc, m, 1);
    ComputedStep(sc, m, 2);
    ComputedStep(sc, m, 3);
  }
}
