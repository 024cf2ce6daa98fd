// What ByteSizeLong computes, 32-bit casts included, and when that is the length
// of the encoding.
module ComputedSizes {
  import opened Bytes
  import opened Varints
  import opened Wire
  import opened Codec
  import opened Runtime
  import opened Sizes

  function TagBytes(num: nat): (r: nat)
    ensures num < 16 ==> r == 1
    ensures 16 <= num < 2048 ==> r == 2
  {
    if num < 2048 then TagSize(num, 2); |EncodeVarint(Tag(num, 2))| else |EncodeVarint(Tag(num, 2))|
  }

  /** Int32Size(static_cast<int32_t>(data_size)): a length of 2 GiB or more turns negative. */
  function PackedPrefixSize(size: nat): nat {
    NumberSize(Int32, ToCachedSize(size))
  }

  function ComputedSlot(slot: Slot, v: Val): (r: nat)
    requires ValidVal(slot, v)
    decreases slot, 3
  {
    match slot
    case Number(_, _) => |SlotBytes(slot, v)|
    case Text(num) => if v.s == [] then 0 else TagBytes(num) + LengthDelimitedSize(|v.s|)
    case Packed(num) =>
      var data := |EncodePacked(v.ns)|;
      (if data == 0 then 0 else TagBytes(num) + PackedPrefixSize(data)) + data
    case Repeated(num, sub) => ComputedSubs(num, sub, v.ms, |v.ms|)
    case Choice(cases) =>
      if v.Unset? then 0 else TagBytes(cases[v.i].num) + LengthDelimitedSize(ComputedSize(cases[v.i].sub, v.m))
  }

  function ComputedSubs(num: nat, sub: Schema, ms: seq<Msg>, k: nat): nat
    requires ValidVal(Repeated(num, sub), Subs(ms)) && k <= |ms|
    decreases sub, 6, k
  {
    if k == 0 then 0
    else ComputedSubs(num, sub, ms, k - 1) + TagBytes(num) + LengthDelimitedSize(ComputedSize(sub, ms[k - 1]))
  }

  function ComputedUpTo(sc: Schema, m: Msg, k: nat): nat
    requires Valid(sc, m) && k <= |sc.slots|
    decreases sc, 4, k
  {
    if k == 0 then 0 else ComputedUpTo(sc, m, k - 1) + ComputedSlot(sc.slots[k - 1], m.vals[k - 1])
  }

  /** The result of ByteSizeLong. */
  function ComputedSize(sc: Schema, m: Msg): nat
    requires Valid(sc, m)
    decreases sc, 5
  {
    ComputedUpTo(sc, m, |sc.slots|) + |Emit(m.unknown)|
  }

  lemma ComputedStep(sc: Schema, m: Msg, k: nat)
    requires Valid(sc, m) && k < |sc.slots|
    ensures ValidVal(sc.slots[k], m.vals[k])
    ensures ComputedUpTo(sc, m, k + 1) == ComputedUpTo(sc, m, k) + ComputedSlot(sc.slots[k], m.vals[k])
  {}

  lemma ComputedStart(sc: Schema, m: Msg)
    requires Valid(sc, m)
    ensures ComputedUpTo(sc, m, 0) == 0
    ensures ComputedSize(sc, m) == ComputedUpTo(sc, m, |sc.slots|) + |Emit(m.unknown)|
  {}

  /** The generated `if (!s.empty()) total_size += 1 + StringSize(s)`. */
  function TextFieldSize(num: nat, t: bytes): (r: nat)
    requires num < 16
    ensures r == ComputedSlot(Text(num), Str(t))
  {
    if t != [] then 1 + LengthDelimitedSize(|t|) else 0
  }

  // ---- When a prefix size is right ---------------------------------------------------

  /** The lengths whose prefix is sized right after the cast to 32 bits. */
  predicate PrefixExact(size: nat) {
    size < TWO_32 || (size < 0x8_0000_0000 && size % 0x1_0000_0000 >= 0x1000_0000)
  }

  /** The same for a packed list, whose length is cast to a signed 32-bit integer. */
  predicate PackedPrefixExact(size: nat) {
    || size < 0x8000_0000
    || (TWO_32 <= size < 0x8_0000_0000 && 0x1000_0000 <= size % 0x1_0000_0000 < 0x8000_0000)
    || (0x8000_0000_0000_0000 <= size < 0x40_0000_0000_0000_0000 && size % 0x1_0000_0000 >= 0x8000_0000)
  }

  /** A computed length-delimited size is never too large, and right exactly for these lengths. */
  lemma {:induction false} LengthPrefixIff(size: nat)
    ensures LengthDelimitedSize(size) <= |EncodeVarint(size)| + size
    ensures LengthDelimitedSize(size) == |EncodeVarint(size)| + size <==> PrefixExact(size)
  {
    hide EncodeVarint;
    var low := size % 0x1_0000_0000;
    EncodeMonotone(low, size);
    Powers();
    SizeBound(low, 4);
    SizeBound(low, 5);
    SizeBound(size, 4);
    SizeBound(size, 5);
  }

  /** A packed prefix can be sized too small and, from 2 GiB to 4 GiB always, too large. */
  lemma {:induction false} PackedPrefixIff(size: nat)
    ensures PackedPrefixSize(size) == |EncodeVarint(size)| <==> PackedPrefixExact(size)
    ensures 0x8000_0000 <= size < TWO_32 ==> PackedPrefixSize(size) > |EncodeVarint(size)|
  {
    hide EncodeVarint, ToCachedSize;
    var low := size % 0x1_0000_0000;
    Powers();
    if low < 0x8000_0000 {
      assert ToCachedSize(size) == low by { CachedLow(size); }
      LengthPrefixIff(size);
      EncodeMonotone(low, size);
    } else {
      assert ToCachedSize(size) == low - TWO_32 by { CachedLow(size); }
      Fits64(low - TWO_32 + TWO_64);
      SizeBound(low - TWO_32 + TWO_64, 9);
      SizeBound(size, 9);
      SizeBound(size, 10);
    }
  }

  lemma CachedLow(size: nat)
    ensures var low := size % 0x1_0000_0000; ToCachedSize(size) == if low < 0x8000_0000 then low else low - TWO_32
  {}

  // ---- Whole messages ----------------------------------------------------------------------

  /** Every length prefix of the message, at every level, is sized right. */
  predicate Exact(sc: Schema, m: Msg)
    requires Valid(sc, m)
  {
    forall i :: 0 <= i < |sc.slots| ==> ExactVal(sc.slots[i], m.vals[i])
  }

  predicate ExactVal(slot: Slot, v: Val)
    requires ValidVal(slot, v)
  {
    match slot
    case Number(_, _) => true
    case Text(_) => PrefixExact(|v.s|)
    case Packed(_) => PackedPrefixExact(|EncodePacked(v.ns)|)
    case Repeated(_, sub) => forall i :: 0 <= i < |v.ms| ==>
          Exact(sub, v.ms[i]) && PrefixExact(|Serialize(sub, v.ms[i])|)
    case Choice(cases) => v.Chosen? ==> Exact(cases[v.i].sub, v.m) && PrefixExact(|Serialize(cases[v.i].sub, v.m)|)
  }

  lemma LenRecordSize(num: nat, s: bytes)
    ensures |EmitRecord(Record(num, Len(s)))| == TagBytes(num) + |EncodeVarint(|s|)| + |s|
  {}

  /** Then the computed size is the length of the encoding. */
  lemma {:induction false} ExactSize(sc: Schema, m: Msg)
    requires Valid(sc, m) && Exact(sc, m)
    ensures ComputedSize(sc, m) == |Serialize(sc, m)|
    decreases sc, 1
  {
    hide Serialize, ComputedSize;
    ExactUpTo(sc, m, |sc.slots|);
    ComputedStart(sc, m);
    SizeEnd(sc, m);
  }

  lemma {:induction false} ExactUpTo(sc: Schema, m: Msg, k: nat)
    requires Valid(sc, m) && Exact(sc, m) && k <= |sc.slots|
    ensures ComputedUpTo(sc, m, k) == |Written(sc, m, k)|
    decreases sc, 0, k
  {
    hide Written, SlotBytes, ComputedSlot, ComputedUpTo, ValidVal, ExactVal;
    ComputedStart(sc, m);
    if k == 0 {
      WriteStart(sc, m, []);
    } else {
      ExactUpTo(sc, m, k - 1);
      SizeStep(sc, m, k - 1);
      ComputedStep(sc, m, k - 1);
      ExactSlot(sc.slots[k - 1], m.vals[k - 1]);
    }
  }

  lemma {:induction false} ExactSlot(slot: Slot, v: Val)
    requires ValidVal(slot, v) && ExactVal(slot, v)
    ensures ComputedSlot(slot, v) == |SlotBytes(slot, v)|
    decreases slot, 0
  {
    hide Serialize, ComputedSize, SlotBytes, EncodeVarint;
    hide PrefixExact, PackedPrefixExact, LengthDelimitedSize, PackedPrefixSize, EmitRecord;
    match slot
    case Number(_, _) =>
    case Text(num) =>
      TextBytes(num, v.s);
      LengthPrefixIff(|v.s|);
      LenRecordSize(num, v.s);
    case Packed(num) =>
      PackedBytes(num, v.ns);
      PackedEmpty(v.ns);
      PackedPrefixIff(|EncodePacked(v.ns)|);
      LenRecordSize(num, EncodePacked(v.ns));
    case Repeated(num, sub) =>
      ExactSubs(num, sub, v.ms, |v.ms|);
      SubsUpToAll(num, sub, v.ms);
    case Choice(cases) =>
      ChosenBytes(cases, v);
      if v.Chosen? {
        ExactSize(cases[v.i].sub, v.m);
        LengthPrefixIff(|Serialize(cases[v.i].sub, v.m)|);
        LenRecordSize(cases[v.i].num, Serialize(cases[v.i].sub, v.m));
      }
  }

  lemma PackedEmpty(ns: seq<nat>)
    ensures |EncodePacked(ns)| == 0 <==> ns == []
  {}

  lemma {:induction false} ExactSubs(num: nat, sub: Schema, ms: seq<Msg>, k: nat)
    requires ValidVal(Repeated(num, sub), Subs(ms)) && ExactVal(Repeated(num, sub), Subs(ms)) && k <= |ms|
    ensures ComputedSubs(num, sub, ms, k) == |SubsUpTo(num, sub, ms, k)|
    decreases sub, 2, k
  {
    hide Serialize, ComputedSize, EncodeVarint, PrefixExact, LengthDelimitedSize, EmitRecord;
    if k > 0 {
      ExactSubs(num, sub, ms, k - 1);
      ExactSize(sub, ms[k - 1]);
      LengthPrefixIff(|Serialize(sub, ms[k - 1])|);
      LenRecordSize(num, Serialize(sub, ms[k - 1]));
    }
  }

  /** Parts shorter than 2 GiB are sized right. */
  lemma {:induction false} FitsExact(sc: Schema, m: Msg)
    requires Valid(sc, m) && Fits(sc, m, INT_MAX)
    ensures Exact(sc, m)
    decreases sc
  {
    forall i | 0 <= i < |sc.slots|
      ensures ExactVal(sc.slots[i], m.vals[i])
    {
      var slot, v := sc.slots[i], m.vals[i];
      assert FitsVal(slot, v, INT_MAX);
      match slot
      case Repeated(_, sub) =>
        forall j | 0 <= j < |v.ms| ensures Exact(sub, v.ms[j]) { FitsExact(sub, v.ms[j]); }
      case Choice(cases) => if v.Chosen? { FitsExact(cases[v.i].sub, v.m); }
      case _ =>
    }
  }

  lemma FitsSize(sc: Schema, m: Msg)
    requires Valid(sc, m) && Fits(sc, m, INT_MAX)
    ensures ComputedSize(sc, m) == |Serialize(sc, m)|
  {
    FitsExact(sc, m);
    ExactSize(sc, m);
  }

  // ---- Everything the runtime agrees to write ----------------------------------------------

  lemma {:induction false} ComputedWithin(sc: Schema, m: Msg, i: nat, k: nat)
    requires Valid(sc, m) && i < k <= |sc.slots|
    ensures ValidVal(sc.slots[i], m.vals[i]) && ComputedSlot(sc.slots[i], m.vals[i]) <= ComputedUpTo(sc, m, k)
  {
    hide ComputedSlot, ComputedUpTo, ValidVal;
    ComputedStep(sc, m, k - 1);
    if i < k - 1 { ComputedWithin(sc, m, i, k - 1); }
  }

  lemma {:induction false} ComputedSubWithin(num: nat, sub: Schema, ms: seq<Msg>, i: nat, k: nat)
    requires ValidVal(Repeated(num, sub), Subs(ms)) && i < k <= |ms|
    ensures Valid(sub, ms[i]) && ComputedSize(sub, ms[i]) <= ComputedSubs(num, sub, ms, k)
  {
    hide ComputedSize, Valid;
    assert Valid(sub, ms[i]);
    if i < k - 1 { ComputedSubWithin(num, sub, ms, i, k - 1); }
  }

  /** A computed size of at most INT_MAX is never the result of a cut-off length. */
  lemma {:induction false} ComputedFits(sc: Schema, m: Msg)
    requires Valid(sc, m) && ComputedSize(sc, m) <= INT_MAX
    ensures Fits(sc, m, INT_MAX)
    decreases sc
  {
    hide ComputedSlot, ComputedUpTo, ValidVal, FitsVal;
    forall i | 0 <= i < |sc.slots|
      ensures FitsVal(sc.slots[i], m.vals[i], INT_MAX)
    {
      ComputedWithin(sc, m, i, |sc.slots|);
      ComputedSlotFits(sc.slots[i], m.vals[i]);
    }
  }

  lemma {:induction false} ComputedSlotFits(slot: Slot, v: Val)
    requires ValidVal(slot, v) && ComputedSlot(slot, v) <= INT_MAX
    ensures FitsVal(slot, v, INT_MAX)
    decreases slot
  {
    hide Serialize, ComputedSize, Fits, EncodeVarint;
    match slot
    case Repeated(num, sub) =>
      forall i | 0 <= i < |v.ms|
        ensures Fits(sub, v.ms[i], INT_MAX) && |Serialize(sub, v.ms[i])| <= INT_MAX
      {
        ComputedSubWithin(num, sub, v.ms, i, |v.ms|);
        ComputedFits(sub, v.ms[i]);
        FitsSize(sub, v.ms[i]);
      }
    case Choice(cases) =>
      if v.Chosen? {
        ComputedFits(cases[v.i].sub, v.m);
        FitsSize(cases[v.i].sub, v.m);
      }
    case _ =>
  }

  /**
   * Size agreement for every message the runtime agrees to write: the computed size is at most INT_MAX
   * exactly when the encoding is that short, and then the two are equal.
   */
  lemma {:induction false} SizeAgreement(sc: Schema, m: Msg)
    requires Valid(sc, m)
    ensures ComputedSize(sc, m) <= INT_MAX <==> |Serialize(sc, m)| <= INT_MAX
    ensures ComputedSize(sc, m) <= INT_MAX ==> Fits(sc, m, INT_MAX) && ComputedSize(sc, m) == |Serialize(sc, m)|
  {
    hide Serialize, ComputedSize, Fits;
    if ComputedSize(sc, m) <= INT_MAX {
      ComputedFits(sc, m);
      FitsSize(sc, m);
    }
    if |Serialize(sc, m)| <= INT_MAX {
      SmallFits(sc, m, INT_MAX);
      FitsSize(sc, m);
    }
  }

  // ---- Beyond: the exact condition ------------------------------------------------------------

  /** No packed list at any level; only its prefix can be sized too large. */
  predicate PackedFree(sc: Schema) {
    forall i :: 0 <= i < |sc.slots| ==> PackedFreeSlot(sc.slots[i])
  }

  predicate PackedFreeSlot(slot: Slot) {
    match slot
    case Packed(_) => false
    case Repeated(_, sub) => PackedFree(sub)
    case Choice(cases) => forall i :: 0 <= i < |cases| ==> PackedFree(cases[i].sub)
    case _ => true
  }

  /** Without packed lists the computed size is never too large, and right exactly when every prefix is sized right. */
  lemma {:induction false} ExactSizeIff(sc: Schema, m: Msg)
    requires Valid(sc, m) && PackedFree(sc)
    ensures ComputedSize(sc, m) <= |Serialize(sc, m)|
    ensures ComputedSize(sc, m) == |Serialize(sc, m)| <==> Exact(sc, m)
    decreases sc, 1
  {
    hide Serialize, ComputedSize, ExactVal;
    ExactUpToIff(sc, m, |sc.slots|);
    ComputedStart(sc, m);
    SizeEnd(sc, m);
  }

  predicate ExactBelow(sc: Schema, m: Msg, k: nat)
    requires Valid(sc, m) && k <= |sc.slots|
  {
    forall i :: 0 <= i < k ==> ExactVal(sc.slots[i], m.vals[i])
  }

  lemma ExactBelowStep(sc: Schema, m: Msg, k: nat)
    requires Valid(sc, m) && 0 < k <= |sc.slots|
    ensures ExactBelow(sc, m, k) <==> ExactBelow(sc, m, k - 1) && ExactVal(sc.slots[k - 1], m.vals[k - 1])
  {
    hide ExactVal, Valid;
  }

  lemma {:induction false} ExactUpToIff(sc: Schema, m: Msg, k: nat)
    requires Valid(sc, m) && PackedFree(sc) && k <= |sc.slots|
    ensures ComputedUpTo(sc, m, k) <= |Written(sc, m, k)|
    ensures ComputedUpTo(sc, m, k) == |Written(sc, m, k)| <==> ExactBelow(sc, m, k)
    decreases sc, 0, k
  {
    hide Written, SlotBytes, ComputedSlot, ComputedUpTo, ValidVal, ExactVal;
    ComputedStart(sc, m);
    if k == 0 {
      WriteStart(sc, m, []);
    } else {
      ExactUpToIff(sc, m, k - 1);
      SizeStep(sc, m, k - 1);
      ComputedStep(sc, m, k - 1);
      ExactSlotIff(sc.slots[k - 1], m.vals[k - 1]);
      ExactBelowStep(sc, m, k);
    }
  }

  lemma {:induction false} ExactSlotIff(slot: Slot, v: Val)
    requires ValidVal(slot, v) && PackedFreeSlot(slot)
    ensures ComputedSlot(slot, v) <= |SlotBytes(slot, v)|
    ensures ComputedSlot(slot, v) == |SlotBytes(slot, v)| <==> ExactVal(slot, v)
    decreases slot, 0
  {
    hide Serialize, ComputedSize, SlotBytes, EncodeVarint, PrefixExact, LengthDelimitedSize, EmitRecord, Exact;
    match slot
    case Number(_, _) =>
    case Text(num) =>
      TextBytes(num, v.s);
      LengthPrefixIff(|v.s|);
      LenRecordSize(num, v.s);
      EmptyIsExact();
    case Repeated(num, sub) =>
      ExactSubsIff(num, sub, v.ms, |v.ms|);
      SubsUpToAll(num, sub, v.ms);
    case Choice(cases) =>
      ChosenBytes(cases, v);
      if v.Chosen? { ExactPartIff(cases[v.i].num, cases[v.i].sub, v.m); }
  }

  lemma EmptyIsExact()
    ensures PrefixExact(0) && PackedPrefixExact(0)
  {}

  /** One submessage with its header. */
  lemma {:induction false} ExactPartIff(num: nat, sub: Schema, m: Msg)
    requires Valid(sub, m) && PackedFree(sub)
    ensures var record := Record(num, Len(Serialize(sub, m)));
            && TagBytes(num) + LengthDelimitedSize(ComputedSize(sub, m)) <= |EmitRecord(record)|
            && (TagBytes(num) + LengthDelimitedSize(ComputedSize(sub, m)) == |EmitRecord(record)| <==>
                  Exact(sub, m) && PrefixExact(|Serialize(sub, m)|))
    decreases sub, 2
  {
    hide Serialize, ComputedSize, EncodeVarint, PrefixExact, LengthDelimitedSize, EmitRecord, Exact, TagBytes;
    var computed, size := ComputedSize(sub, m), |Serialize(sub, m)|;
    ExactSizeIff(sub, m);
    LengthPrefixIff(computed);
    EncodeMonotone(computed, size);
    LenRecordSize(num, Serialize(sub, m));
  }

  lemma {:induction false} ExactSubsIff(num: nat, sub: Schema, ms: seq<Msg>, k: nat)
    requires ValidVal(Repeated(num, sub), Subs(ms)) && PackedFree(sub) && k <= |ms|
    ensures ComputedSubs(num, sub, ms, k) <= |SubsUpTo(num, sub, ms, k)|
    ensures ComputedSubs(num, sub, ms, k) == |SubsUpTo(num, sub, ms, k)| <==>
              forall i :: 0 <= i < k ==> Exact(sub, ms[i]) && PrefixExact(|Serialize(sub, ms[i])|)
    decreases sub, 3, k
  {
    hide Serialize, ComputedSize, EncodeVarint, PrefixExact, LengthDelimitedSize, EmitRecord, Exact, TagBytes;
    if k > 0 {
      ExactSubsIff(num, sub, ms, k - 1);
      ExactPartIff(num, sub, ms[k - 1]);
    }
  }
}
