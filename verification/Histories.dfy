// What whole inputs do to single slots: oneofs, packed lists and unknown fields.
module Histories {
  import opened Bytes
  import opened Wire
  import opened Utf8
  import opened Codec
  import opened Projection

  lemma {:induction false} SlotFoldConcat(slot: Slot, v: Val, xs: seq<Record>, ys: seq<Record>)
    requires ValidVal(slot, v) && AllAccepted(slot, xs) && AllAccepted(slot, ys)
    ensures AllAccepted(slot, xs + ys)
    ensures SlotFold(slot, v, xs + ys) ==
            match SlotFold(slot, v, xs) case None => None case Some(v') => SlotFold(slot, v', ys)
    decreases |xs|
  {
    if xs == [] {
      assert xs + ys == ys;
    } else {
      assert (xs + ys)[1..] == xs[1..] + ys;
      match SlotStep(slot, v, xs[0])
      case None =>
      case Some(v') => SlotFoldConcat(slot, v', xs[1..], ys);
    }
  }

  // ---- Oneofs -------------------------------------------------------------------

  predicate AllOfCase(cases: seq<Case>, rs: seq<Record>, j: nat) {
    forall k :: 0 <= k < |rs| ==> CaseOf(cases, rs[k].num) == j
  }

  /** Where the last run of records of one case begins. */
  function RunStart(cases: seq<Case>, rs: seq<Record>): (k: nat)
    requires rs != []
    ensures k < |rs| && AllOfCase(cases, rs[k..], CaseOf(cases, rs[|rs| - 1].num))
    ensures k > 0 ==> CaseOf(cases, rs[k - 1].num) != CaseOf(cases, rs[|rs| - 1].num)
  {
    if |rs| == 1 then 0
    else
      var k := RunStart(cases, rs[1..]);
      assert rs[1..][k..] == rs[k + 1..];
      if k == 0 && CaseOf(cases, rs[0].num) == CaseOf(cases, rs[|rs| - 1].num) then
        assert rs[0..] == [rs[0]] + rs[1..][0..];
        0
      else
        k + 1
  }

  /** Parsing the payloads of `rs`, one after the other, into one submessage. */
  function FoldParse(sub: Schema, m: Msg, rs: seq<Record>): (r: Option<Msg>)
    requires Valid(sub, m) && forall k :: 0 <= k < |rs| ==> rs[k].body.Len?
    ensures r.Some? ==> Valid(sub, r.value)
    decreases |rs|
  {
    if rs == [] then Some(m)
    else
      match Parse(sub, m, rs[0].body.s)
      case None => None
      case Some(m') => FoldParse(sub, m', rs[1..])
  }

  function Payloads(rs: seq<Record>): bytes
    requires forall k :: 0 <= k < |rs| ==> rs[k].body.Len?
  {
    if rs == [] then [] else rs[0].body.s + Payloads(rs[1..])
  }

  /** A successful fold over payloads is one parse of their concatenation. */
  lemma {:induction false} FoldParseIsOneParse(sub: Schema, m: Msg, rs: seq<Record>)
    requires Valid(sub, m) && forall k :: 0 <= k < |rs| ==> rs[k].body.Len?
    requires FoldParse(sub, m, rs).Some?
    ensures Parse(sub, m, Payloads(rs)) == FoldParse(sub, m, rs)
    decreases |rs|
  {
    if rs != [] {
      var m' := Parse(sub, m, rs[0].body.s).value;
      FoldParseIsOneParse(sub, m', rs[1..]);
      ParseConcat(sub, m, rs[0].body.s, Payloads(rs[1..]));
    }
  }

  function AsChosen(j: nat, r: Option<Msg>): Option<Val> {
    match r
    case None => None
    case Some(m) => Some(Chosen(j, m))
  }

  lemma {:induction false} RunOfOneCase(cases: seq<Case>, v: Val, rs: seq<Record>, j: nat)
    requires ValidVal(Choice(cases), v) && AllAccepted(Choice(cases), rs)
    requires rs != [] && j < |cases| && AllOfCase(cases, rs, j)
    ensures SlotFold(Choice(cases), v, rs) == AsChosen(j, FoldParse(cases[j].sub, CaseBase(cases, v, j), rs))
    decreases |rs|
  {
    var slot := Choice(cases);
    match Parse(cases[j].sub, CaseBase(cases, v, j), rs[0].body.s)
    case None =>
    case Some(m) =>
      if |rs| == 1 {
        assert rs[1..] == [];
      } else {
        RunOfOneCase(cases, Chosen(j, m), rs[1..], j);
      }
  }

  lemma {:induction false} FoldEndsInLastCase(cases: seq<Case>, v: Val, rs: seq<Record>)
    requires ValidVal(Choice(cases), v) && AllAccepted(Choice(cases), rs) && rs != []
    ensures var r := SlotFold(Choice(cases), v, rs);
            r.Some? ==> r.value.Chosen? && r.value.i == CaseOf(cases, rs[|rs| - 1].num)
    decreases |rs|
  {
    match SlotStep(Choice(cases), v, rs[0])
    case None =>
    case Some(v') =>
      if |rs| == 1 { assert rs[1..] == []; } else { FoldEndsInLastCase(cases, v', rs[1..]); }
  }

  /**
   * A oneof over a whole input: the case is that of the last record, and its submessage is the parse
   * of exactly the payloads since the last change of case, into the old submessage if the case never
   * changed and into a fresh one otherwise.
   */
  lemma {:induction false} OneofOverInput(cases: seq<Case>, v: Val, rs: seq<Record>)
    requires ValidVal(Choice(cases), v) && AllAccepted(Choice(cases), rs) && rs != []
    requires SlotFold(Choice(cases), v, rs).Some?
    ensures var j, k := CaseOf(cases, rs[|rs| - 1].num), RunStart(cases, rs);
            var base := if k == 0 then CaseBase(cases, v, j) else Default(cases[j].sub);
            SlotFold(Choice(cases), v, rs) == AsChosen(j, Parse(cases[j].sub, base, Payloads(rs[k..])))
  {
    var j, k := CaseOf(cases, rs[|rs| - 1].num), RunStart(cases, rs);
    var u := BeforeLastRun(cases, v, rs);
    RunOfOneCase(cases, u, rs[k..], j);
    FoldParseIsOneParse(cases[j].sub, CaseBase(cases, u, j), rs[k..]);
  }

  /** The oneof as the last run of one case finds it. */
  lemma {:induction false} BeforeLastRun(cases: seq<Case>, v: Val, rs: seq<Record>) returns (u: Val)
    requires ValidVal(Choice(cases), v) && AllAccepted(Choice(cases), rs) && rs != []
    requires SlotFold(Choice(cases), v, rs).Some?
    ensures var j, k := CaseOf(cases, rs[|rs| - 1].num), RunStart(cases, rs);
            && ValidVal(Choice(cases), u) && j < |cases| && AllAccepted(Choice(cases), rs[k..])
            && SlotFold(Choice(cases), v, rs) == SlotFold(Choice(cases), u, rs[k..])
            && CaseBase(cases, u, j) == if k == 0 then CaseBase(cases, v, j) else Default(cases[j].sub)
  {
    var slot, k := Choice(cases), RunStart(cases, rs);
    var before, run := rs[..k], rs[k..];
    assert rs == before + run;
    assert AllAccepted(slot, [rs[|rs| - 1]]);
    SlotFoldConcat(slot, v, before, run);
    u := SlotFold(slot, v, before).value;
    if k == 0 {
      assert before == [];
    } else {
      FoldEndsInLastCase(cases, v, before);
    }
  }

  // ---- Packed lists ------------------------------------------------------------------

  /** All values of a repeated uint64 field in wire order, whichever way each record spells them. */
  function WireValues(rs: seq<Record>): Option<seq<nat>>
    requires forall k :: 0 <= k < |rs| ==> rs[k].body.Varint? || rs[k].body.Len?
  {
    if rs == [] then Some([])
    else
      match (if rs[0].body.Varint? then Some([rs[0].body.v]) else DecodePacked(rs[0].body.s))
      case None => None
      case Some(xs) =>
        match WireValues(rs[1..])
        case None => None
        case Some(ys) => Some(xs + ys)
  }

  /** Any interleaving of packed chunks and single varints appends all values in wire order. */
  lemma {:induction false} PackedOverInput(num: nat, v: Val, rs: seq<Record>)
    requires ValidVal(Packed(num), v) && AllAccepted(Packed(num), rs)
    ensures SlotFold(Packed(num), v, rs) ==
            match WireValues(rs) case None => None case Some(xs) => Some(Nums(v.ns + xs))
    decreases |rs|
  {
    if rs == [] {
      assert v.ns + [] == v.ns;
    } else {
      match SlotStep(Packed(num), v, rs[0])
      case None =>
      case Some(v') =>
        PackedOverInput(num, v', rs[1..]);
        if WireValues(rs[1..]).Some? {
          var xs := if rs[0].body.Varint? then [rs[0].body.v] else DecodePacked(rs[0].body.s).value;
          assert (v.ns + xs) + WireValues(rs[1..]).value == v.ns + (xs + WireValues(rs[1..]).value);
        }
    }
  }

  // ---- Unknown fields and re-serialization -------------------------------------------------

  /** A oneof or a repeated field only ever receives submessages whose strings were checked. */
  lemma {:induction false} ParseKeepsTextOk(sc: Schema, m: Msg, s: bytes)
    requires Valid(sc, m) && TextOk(sc, m) && Parse(sc, m, s).Some?
    ensures TextOk(sc, Parse(sc, m, s).value)
    decreases sc, 2, 0
  {
    TokensOk(s);
    ApplyAllKeepsTextOk(sc, m, Tokenise(s).value);
  }

  lemma {:induction false} ApplyAllKeepsTextOk(sc: Schema, m: Msg, rs: seq<Record>)
    requires Valid(sc, m) && RecordsOk(rs) && TextOk(sc, m) && ApplyAll(sc, m, rs).Some?
    ensures TextOk(sc, ApplyAll(sc, m, rs).value)
    decreases sc, 1, |rs|
  {
    if rs != [] {
      var i := Find(sc, rs[0]);
      if i.Some? {
        StepKeepsTextOk(sc.slots[i.value], m.vals[i.value], rs[0]);
      }
      ApplyAllKeepsTextOk(sc, Apply(sc, m, rs[0]).value, rs[1..]);
    }
  }

  lemma DefaultTextOk(sc: Schema)
    ensures TextOk(sc, Default(sc))
  {
    forall i | 0 <= i < |sc.slots| ensures TextOkVal(sc.slots[i], Default(sc).vals[i]) {
      assert Default(sc).vals[i] == DefaultVal(sc.slots[i]);
    }
  }

  lemma {:induction false} StepKeepsTextOk(slot: Slot, v: Val, r: Record)
    requires ValidVal(slot, v) && RecordOk(r) && Accepts(slot, r.num, WireType(r.body))
    requires TextOkVal(slot, v) && SlotStep(slot, v, r).Some?
    ensures TextOkVal(slot, SlotStep(slot, v, r).value)
    decreases slot, 0, 0
  {
    match slot
    case Repeated(_, sub) =>
      DefaultTextOk(sub);
      ParseKeepsTextOk(sub, Default(sub), r.body.s);
    case Choice(cases) =>
      var j := CaseOf(cases, r.num);
      DefaultTextOk(cases[j].sub);
      ParseKeepsTextOk(cases[j].sub, CaseBase(cases, v, j), r.body.s);
    case _ =>
  }

  /** The unmatched records of an input are kept in wire order and written after the known fields. */
  lemma {:induction false} UnknownInOrder(sc: Schema, s: bytes)
    requires Parse(sc, Default(sc), s).Some?
    ensures var m := Parse(sc, Default(sc), s).value;
            && m.unknown == Select(sc, Tokenise(s).value, None)
            && Serialize(sc, m) == Emit(KnownUpTo(sc, m, |sc.slots|)) + Emit(Select(sc, Tokenise(s).value, None))
  {
    var m := Parse(sc, Default(sc), s).value;
    TokensOk(s);
    ParseIsSlotwise(sc, Default(sc), Tokenise(s).value);
    EmptyPrefix(Select(sc, Tokenise(s).value, None));
    EmitConcat(KnownUpTo(sc, m, |sc.slots|), m.unknown);
  }

  lemma EmptyPrefix(rs: seq<Record>)
    ensures [] + rs == rs
  {}

  // ---- Scalars, strings and elements over an input -------------------------------------------

  /** The last record of a scalar field decides. */
  lemma {:induction false} LastNumberWins(slot: Slot, v: Val, rs: seq<Record>)
    requires slot.Number? && ValidVal(slot, v) && AllAccepted(slot, rs)
    ensures rs != [] ==> RecordOk(rs[|rs| - 1]) && WireType(rs[|rs| - 1].body) == NumberWire(slot.ty)
    ensures SlotFold(slot, v, rs) == Some(if rs == [] then v else Num(DecodeNumber(slot.ty, rs[|rs| - 1].body)))
    decreases |rs|
  {
    if rs != [] {
      LastNumberWins(slot, SlotStep(slot, v, rs[0]).value, rs[1..]);
    }
  }

  /** The last record of a string field decides, provided all of them are UTF-8. */
  lemma {:induction false} LastTextWins(slot: Slot, v: Val, rs: seq<Record>)
    requires slot.Text? && ValidVal(slot, v) && AllAccepted(slot, rs)
    ensures forall i :: 0 <= i < |rs| ==> rs[i].body.Len?
    ensures SlotFold(slot, v, rs) ==
            if exists i :: 0 <= i < |rs| && !ValidUtf8(rs[i].body.s) then None
            else Some(if rs == [] then v else Str(rs[|rs| - 1].body.s))
    decreases |rs|
  {
    hide ValidUtf8;
    if rs != [] {
      assert forall i :: 1 <= i < |rs| ==> rs[i] == rs[1..][i - 1];
      if ValidUtf8(rs[0].body.s) {
        LastTextWins(slot, Str(rs[0].body.s), rs[1..]);
      } else {
        forall i | 0 <= i < |rs| ensures rs[i].body.Len? { assert Accepts(slot, rs[i].num, WireType(rs[i].body)); }
      }
    }
  }

  /** Every record of a repeated submessage adds an element, parsed from a cleared one, in wire order. */
  lemma {:induction false} ElementsInOrder(slot: Slot, v: Val, rs: seq<Record>)
    requires slot.Repeated? && ValidVal(slot, v) && AllAccepted(slot, rs)
    ensures forall i :: 0 <= i < |rs| ==> rs[i].body.Len?
    ensures SlotFold(slot, v, rs).Some? <==>
              forall i :: 0 <= i < |rs| ==> Parse(slot.sub, Default(slot.sub), rs[i].body.s).Some?
    ensures SlotFold(slot, v, rs).Some? ==>
              var w := SlotFold(slot, v, rs).value;
              && w.Subs? && |w.ms| == |v.ms| + |rs| && w.ms[..|v.ms|] == v.ms
              && forall i :: 0 <= i < |rs| ==>
                   Parse(slot.sub, Default(slot.sub), rs[i].body.s) == Some(w.ms[|v.ms| + i])
    decreases |rs|
  {
    hide Parse, Default;
    forall i | 0 <= i < |rs| ensures rs[i].body.Len? { assert Accepts(slot, rs[i].num, WireType(rs[i].body)); }
    if rs != [] {
      assert forall i :: 1 <= i < |rs| ==> rs[i] == rs[1..][i - 1];
      var x := Parse(slot.sub, Default(slot.sub), rs[0].body.s);
      if x.Some? {
        var v' := Subs(v.ms + [x.value]);
        ElementsInOrder(slot, v', rs[1..]);
        if SlotFold(slot, v, rs).Some? {
          var w := SlotFold(slot, v, rs).value;
          assert w.ms[..|v.ms|] == w.ms[..|v'.ms|][..|v.ms|];
          assert w.ms[|v.ms|] == w.ms[..|v'.ms|][|v.ms|];
        }
      }
    }
  }
}
