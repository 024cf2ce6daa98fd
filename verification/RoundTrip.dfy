// Parsing serialized bytes: into any message it is merging, into a fresh one
// it is the identity, and it fails exactly on strings that are not UTF-8.
module RoundTrip {
  import opened Bytes
  import opened Varints
  import opened Wire
  import opened Codec
  import opened Projection

  // ---- The default message is a left identity of merge ------------------------

  lemma {:induction false} MergeIntoDefault(sc: Schema, m: Msg)
    requires Valid(sc, m)
    ensures Merge(sc, Default(sc), m) == m
    decreases sc
  {
    var d := Default(sc);
    forall i | 0 <= i < |sc.slots|
      ensures MergeVal(sc.slots[i], d.vals[i], m.vals[i]) == m.vals[i]
    {
      MergeValIntoDefault(sc.slots[i], m.vals[i]);
    }
    assert Merge(sc, d, m).vals == m.vals;
    assert Merge(sc, d, m).unknown == m.unknown;
  }

  lemma {:induction false} MergeValIntoDefault(slot: Slot, v: Val)
    requires ValidVal(slot, v)
    ensures MergeVal(slot, DefaultVal(slot), v) == v
    decreases slot
  {
    match slot
    case Choice(cases) => if v.Chosen? { MergeIntoDefault(cases[v.i].sub, v.m); }
    case _ =>
  }

  // ---- Packed values ------------------------------------------------------------

  lemma DecodePackedStep(v: nat, rest: bytes)
    requires v < TWO_64
    ensures DecodePacked(EncodeVarint(v) + rest) ==
            match DecodePacked(rest) case None => None case Some(ns) => Some([v] + ns)
  {
    hide EncodeVarint, DecodeVarint;
    Fits64(v);
    DecodeEncode(v, 10, rest);
    assert (EncodeVarint(v) + rest)[|EncodeVarint(v)|..] == rest;
  }

  lemma {:induction false} PackedRoundTrip(ns: seq<nat>)
    requires forall i :: 0 <= i < |ns| ==> ns[i] < TWO_64
    ensures DecodePacked(EncodePacked(ns)) == Some(ns)
  {
    if ns != [] {
      PackedRoundTrip(ns[1..]);
      DecodePackedStep(ns[0], EncodePacked(ns[1..]));
      assert [ns[0]] + ns[1..] == ns;
    }
  }

  // ---- Every record a message writes is legal and goes back to its slot -----------

  lemma FindNumber(sc: Schema, i: nat, num: nat, wireType: nat)
    requires SchemaOk(sc) && i < |sc.slots| && Accepts(sc.slots[i], num, wireType)
    ensures FindBelow(sc.slots, num, wireType, |sc.slots|) == Some(i)
  {
    var j := FindBelow(sc.slots, num, wireType, |sc.slots|).value;
    AcceptedNumber(sc.slots[i], num, wireType);
    AcceptedNumber(sc.slots[j], num, wireType);
  }

  lemma FindSlot(sc: Schema, i: nat, r: Record)
    requires SchemaOk(sc) && i < |sc.slots| && Accepts(sc.slots[i], r.num, WireType(r.body))
    ensures Find(sc, r) == Some(i)
  {
    FindNumber(sc, i, r.num, WireType(r.body));
  }

  lemma AcceptedNumber(slot: Slot, num: nat, wireType: nat)
    requires SlotOk(slot) && Accepts(slot, num, wireType)
    ensures Low(slot) <= num <= High(slot)
  {
    if slot.Choice? {
      var c := CaseOf(slot.cases, num);
      assert slot.cases[c].num == num;
    }
  }

  lemma {:induction false} CaseOfNumber(cases: seq<Case>, j: nat)
    requires j < |cases| && forall i, k :: 0 <= i < k < |cases| ==> cases[i].num < cases[k].num
    ensures CaseOf(cases, cases[j].num) == j
  {
    if j > 0 {
      CaseOfNumber(cases[1..], j - 1);
    }
  }

  lemma SlotRecordsLegal(slot: Slot, v: Val)
    requires SlotOk(slot) && ValidVal(slot, v) && FitsVal(slot, v, MAX_LEN)
    ensures AllAccepted(slot, SlotRecords(slot, v))
  {
    match slot
    case Choice(cases) =>
      if v.Chosen? {
        CaseOfNumber(cases, v.i);
        assert cases[v.i].num <= High(slot);
        assert cases[v.i].num >= Low(slot);
      }
    case _ =>
  }

  lemma {:induction false} KnownLegal(sc: Schema, m: Msg, k: nat)
    requires SchemaOk(sc) && Valid(sc, m) && Fits(sc, m, MAX_LEN) && k <= |sc.slots|
    ensures RecordsOk(KnownUpTo(sc, m, k))
  {
    if k > 0 {
      KnownLegal(sc, m, k - 1);
      SlotRecordsLegal(sc.slots[k - 1], m.vals[k - 1]);
    }
  }

  // ---- Parsing the records of one slot merges that slot -----------------------------

  /** What parsing slot value `b` into slot value `a` gives. */
  function MergeIfText(slot: Slot, a: Val, b: Val): Option<Val>
    requires ValidVal(slot, a) && ValidVal(slot, b)
  {
    if TextOkVal(slot, b) then Some(MergeVal(slot, a, b)) else None
  }

  lemma FoldOne(slot: Slot, a: Val, r: Record)
    requires ValidVal(slot, a) && AllAccepted(slot, [r])
    ensures RecordOk(r) && Accepts(slot, r.num, WireType(r.body))
    ensures SlotFold(slot, a, [r]) == SlotStep(slot, a, r)
  {
    assert [r][0] == r && [r][1..] == [];
  }

  lemma {:induction false} FoldMerges(slot: Slot, a: Val, b: Val)
    requires SlotOk(slot) && ValidVal(slot, a) && ValidVal(slot, b) && FitsVal(slot, b, MAX_LEN)
    ensures AllAccepted(slot, SlotRecords(slot, b))
    ensures SlotFold(slot, a, SlotRecords(slot, b)) == MergeIfText(slot, a, b)
    decreases slot, 0
  {
    SlotRecordsLegal(slot, b);
    match slot
    case Number(num, ty) =>
      NumberRoundTrip(ty, b.n);
      if b.n != 0 { FoldOne(slot, a, SlotRecords(slot, b)[0]); }
    case Text(num) =>
      if b.s != [] { FoldOne(slot, a, SlotRecords(slot, b)[0]); }
    case Packed(num) =>
      PackedRoundTrip(b.ns);
      if b.ns != [] { FoldOne(slot, a, SlotRecords(slot, b)[0]); }
      else { assert a.ns + b.ns == a.ns; }
    case Repeated(num, sub) =>
      FoldSubs(slot, a, b.ms);
    case Choice(cases) =>
      if b.Chosen? { FoldChosen(slot, a, b); }
  }

  lemma {:induction false} FoldChosen(slot: Slot, a: Val, b: Val)
    requires slot.Choice? && b.Chosen?
    requires SlotOk(slot) && ValidVal(slot, a) && ValidVal(slot, b) && FitsVal(slot, b, MAX_LEN)
    requires AllAccepted(slot, SlotRecords(slot, b))
    ensures SlotFold(slot, a, SlotRecords(slot, b)) == MergeIfText(slot, a, b)
    decreases slot, 0, 0
  {
    FoldOne(slot, a, SlotRecords(slot, b)[0]);
    CaseOfNumber(slot.cases, b.i);
    ParseSerialized(slot.cases[b.i].sub, CaseBase(slot.cases, a, b.i), b.m);
  }

  lemma {:induction false} FoldSubs(slot: Slot, a: Val, ms: seq<Msg>)
    requires slot.Repeated? && SlotOk(slot) && ValidVal(slot, a)
    requires ValidVal(slot, Subs(ms)) && FitsVal(slot, Subs(ms), MAX_LEN)
    ensures AllAccepted(slot, SlotRecords(slot, Subs(ms)))
    ensures SlotFold(slot, a, SlotRecords(slot, Subs(ms))) == MergeIfText(slot, a, Subs(ms))
    decreases slot, 0, |ms|
  {
    if ms == [] {
      assert a.ms + ms == a.ms;
    } else {
      SubsSplit(slot, ms);
      MergeIntoDefault(slot.sub, ms[0]);
      ParseSerialized(slot.sub, Default(slot.sub), ms[0]);
      var a' := Subs(a.ms + [ms[0]]);
      assert SlotStep(slot, a, SlotRecords(slot, Subs(ms))[0]) == if TextOk(slot.sub, ms[0]) then Some(a') else None;
      FoldSubs(slot, a', ms[1..]);
      MergeSubsSplit(slot, a, ms);
    }
  }

  lemma MergeSubsSplit(slot: Slot, a: Val, ms: seq<Msg>)
    requires slot.Repeated? && ms != [] && ValidVal(slot, a) && ValidVal(slot, Subs(ms))
    ensures ValidVal(slot, Subs(a.ms + [ms[0]])) && ValidVal(slot, Subs(ms[1..]))
    ensures MergeVal(slot, Subs(a.ms + [ms[0]]), Subs(ms[1..])) == MergeVal(slot, a, Subs(ms))
  {
    assert (a.ms + [ms[0]]) + ms[1..] == a.ms + ms;
  }

  lemma SubsSplit(slot: Slot, ms: seq<Msg>)
    requires slot.Repeated? && SlotOk(slot) && ms != []
    requires ValidVal(slot, Subs(ms)) && FitsVal(slot, Subs(ms), MAX_LEN)
    ensures ValidVal(slot, Subs(ms[1..])) && FitsVal(slot, Subs(ms[1..]), MAX_LEN)
    ensures AllAccepted(slot, SlotRecords(slot, Subs(ms)))
    ensures SlotRecords(slot, Subs(ms))[1..] == SlotRecords(slot, Subs(ms[1..]))
    ensures TextOkVal(slot, Subs(ms)) <==> TextOk(slot.sub, ms[0]) && TextOkVal(slot, Subs(ms[1..]))
  {
    SlotRecordsLegal(slot, Subs(ms));
    TextSplit(slot, ms);
  }

  lemma TextSplit(slot: Slot, ms: seq<Msg>)
    requires slot.Repeated? && ms != [] && ValidVal(slot, Subs(ms)) && ValidVal(slot, Subs(ms[1..]))
    ensures TextOkVal(slot, Subs(ms)) <==> TextOk(slot.sub, ms[0]) && TextOkVal(slot, Subs(ms[1..]))
  {
    assert forall i :: 1 <= i < |ms| ==> ms[i] == ms[1..][i - 1];
  }

  // ---- All slots at once -------------------------------------------------------------------

  lemma {:induction false} SelectUniform(sc: Schema, rs: seq<Record>, j: Option<nat>, i: Option<nat>)
    requires forall k :: 0 <= k < |rs| ==> Find(sc, rs[k]) == j
    ensures Select(sc, rs, i) == if i == j then rs else []
  {
    if rs != [] {
      SelectUniform(sc, rs[1..], j, i);
    }
  }

  /** What slot k of a message contributes to the selection for slot `i`. */
  function Contribution(sc: Schema, m: Msg, k: nat, i: Option<nat>): seq<Record>
    requires Valid(sc, m) && k < |sc.slots|
  {
    if i == Some(k) then SlotRecords(sc.slots[k], m.vals[k]) else []
  }

  lemma SelectSlot(sc: Schema, m: Msg, k: nat, i: Option<nat>)
    requires SchemaOk(sc) && Valid(sc, m) && Fits(sc, m, MAX_LEN) && k < |sc.slots|
    ensures Select(sc, SlotRecords(sc.slots[k], m.vals[k]), i) == Contribution(sc, m, k, i)
  {
    var rs := SlotRecords(sc.slots[k], m.vals[k]);
    SlotRecordsLegal(sc.slots[k], m.vals[k]);
    forall j | 0 <= j < |rs| ensures Find(sc, rs[j]) == Some(k) {
      FindSlot(sc, k, rs[j]);
    }
    SelectUniform(sc, rs, Some(k), i);
  }

  lemma SelectKnownStep(sc: Schema, m: Msg, k: nat, i: Option<nat>)
    requires SchemaOk(sc) && Valid(sc, m) && Fits(sc, m, MAX_LEN) && k < |sc.slots|
    ensures Select(sc, KnownUpTo(sc, m, k + 1), i) == Select(sc, KnownUpTo(sc, m, k), i) + Contribution(sc, m, k, i)
  {
    SelectSlot(sc, m, k, i);
    SelectConcat(sc, KnownUpTo(sc, m, k), SlotRecords(sc.slots[k], m.vals[k]), i);
  }

  lemma NothingKnown(sc: Schema, m: Msg, i: Option<nat>)
    requires Valid(sc, m)
    ensures Select(sc, KnownUpTo(sc, m, 0), i) == []
  {}

  /** The records written for the first k slots go back to the slots that wrote them. */
  lemma {:induction false} SelectKnown(sc: Schema, m: Msg, k: nat, i: Option<nat>)
    requires SchemaOk(sc) && Valid(sc, m) && Fits(sc, m, MAX_LEN) && k <= |sc.slots|
    requires i.Some? ==> i.value < |sc.slots|
    ensures Select(sc, KnownUpTo(sc, m, k), i) == if i.Some? && i.value < k then Contribution(sc, m, i.value, i) else []
  {
    hide Select, SlotRecords, Fits, SchemaOk, KnownUpTo;
    if k == 0 {
      NothingKnown(sc, m, i);
    } else {
      SelectKnown(sc, m, k - 1, i);
      SelectKnownStep(sc, m, k - 1, i);
      var before, c := Select(sc, KnownUpTo(sc, m, k - 1), i), Contribution(sc, m, k - 1, i);
      assert before == [] ==> before + c == c;
      assert c == [] ==> before + c == before;
    }
  }

  lemma SelectRecords(sc: Schema, m: Msg, i: Option<nat>)
    requires SchemaOk(sc) && Valid(sc, m) && Fits(sc, m, MAX_LEN) && (i.Some? ==> i.value < |sc.slots|)
    ensures RecordsOk(Records(sc, m))
    ensures Select(sc, Records(sc, m), i) ==
            if i.Some? then SlotRecords(sc.slots[i.value], m.vals[i.value]) else m.unknown
  {
    KnownLegal(sc, m, |sc.slots|);
    SelectKnown(sc, m, |sc.slots|, i);
    SelectConcat(sc, KnownUpTo(sc, m, |sc.slots|), m.unknown, i);
    SelectUniform(sc, m.unknown, None, i);
  }

  lemma {:induction false} SlotOfSerialized(sc: Schema, a: Msg, b: Msg, i: nat)
    requires SchemaOk(sc) && Valid(sc, a) && Valid(sc, b) && Fits(sc, b, MAX_LEN) && i < |sc.slots|
    requires RecordsOk(Records(sc, b))
    ensures SlotResult(sc, a, Records(sc, b), i) == MergeIfText(sc.slots[i], a.vals[i], b.vals[i])
    decreases sc, 0
  {
    SelectRecords(sc, b, Some(i));
    FoldMerges(sc.slots[i], a.vals[i], b.vals[i]);
  }

  /**
   * Parse is merge: parsing the bytes of `b` into any message `a` gives exactly the merge of the two
   * when every string of `b` is UTF-8, and fails otherwise.
   */
  lemma {:induction false} ParseSerialized(sc: Schema, a: Msg, b: Msg)
    requires SchemaOk(sc) && Valid(sc, a) && Valid(sc, b) && Fits(sc, b, MAX_LEN)
    ensures Parse(sc, a, Serialize(sc, b)) == if TextOk(sc, b) then Some(Merge(sc, a, b)) else None
    decreases sc, 1
  {
    var rs := Records(sc, b);
    SelectRecords(sc, b, None);
    TokeniseEmitted(rs);
    ParseIsSlotwise(sc, a, rs);
    forall i | 0 <= i < |sc.slots|
      ensures SlotResult(sc, a, rs, i) == MergeIfText(sc.slots[i], a.vals[i], b.vals[i])
    {
      SlotOfSerialized(sc, a, b, i);
    }
    if TextOk(sc, b) {
      assert AllSlotsParse(sc, a, rs);
      assert ApplyAll(sc, a, rs).value.vals == Merge(sc, a, b).vals;
    }
  }

  /** The round trip: a fresh message gets back the message that was written, or the parse fails on a string. */
  lemma {:induction false} RoundTrips(sc: Schema, m: Msg)
    requires SchemaOk(sc) && Valid(sc, m) && Fits(sc, m, MAX_LEN)
    ensures Parse(sc, Default(sc), Serialize(sc, m)) == if TextOk(sc, m) then Some(m) else None
  {
    ParseSerialized(sc, Default(sc), m);
    MergeIntoDefault(sc, m);
  }

  /** Different messages have different bytes. */
  lemma {:induction false} SerializeInjective(sc: Schema, a: Msg, b: Msg)
    requires SchemaOk(sc) && Valid(sc, a) && Valid(sc, b) && Fits(sc, a, MAX_LEN) && Fits(sc, b, MAX_LEN) &&
             TextOk(sc, a) && TextOk(sc, b)
    requires Serialize(sc, a) == Serialize(sc, b)
    ensures a == b
  {
    RoundTrips(sc, a);
    RoundTrips(sc, b);
  }

  /** Parsing the concatenation of two serialized messages is merging them. */
  lemma {:induction false} ConcatenationMerges(sc: Schema, a: Msg, b: Msg)
    requires SchemaOk(sc) && Valid(sc, a) && Valid(sc, b) && Fits(sc, a, MAX_LEN) && Fits(sc, b, MAX_LEN)
    requires TextOk(sc, a) && TextOk(sc, b)
    ensures Parse(sc, Default(sc), Serialize(sc, a) + Serialize(sc, b)) == Some(Merge(sc, a, b))
  {
    KnownLegal(sc, a, |sc.slots|);
    TokeniseEmitted(Records(sc, a));
    ParseConcat(sc, Default(sc), Serialize(sc, a), Serialize(sc, b));
    RoundTrips(sc, a);
    ParseSerialized(sc, a, b);
  }
}
