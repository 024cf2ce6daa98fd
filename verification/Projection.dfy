// The parse loop taken apart: the final message is the slot-wise fold of the
// records that belong to each slot, and nothing else.
module Projection {
  import opened Bytes
  import opened Wire
  import opened Codec

  // ---- Running the loop over a concatenation ----------------------------------

  /** Carries on with `rs` from where an earlier part of the parse ended. */
  function Then(sc: Schema, r: Option<Msg>, rs: seq<Record>): Option<Msg>
    requires (r.Some? ==> Valid(sc, r.value)) && RecordsOk(rs)
  {
    match r
    case None => None
    case Some(m) => ApplyAll(sc, m, rs)
  }

  lemma {:induction false} ApplyAllConcat(sc: Schema, m: Msg, xs: seq<Record>, ys: seq<Record>)
    requires Valid(sc, m) && RecordsOk(xs) && RecordsOk(ys)
    ensures RecordsOk(xs + ys)
    ensures ApplyAll(sc, m, xs + ys) == Then(sc, ApplyAll(sc, m, xs), ys)
    decreases |xs|
  {
    if xs == [] {
      assert xs + ys == ys;
    } else {
      assert (xs + ys)[1..] == xs[1..] + ys;
      match Apply(sc, m, xs[0])
      case None =>
      case Some(m') => ApplyAllConcat(sc, m', xs[1..], ys);
    }
  }

  /** Parsing a concatenation is parsing the parts one after the other. */
  lemma {:induction false} ParseConcat(sc: Schema, m: Msg, s: bytes, t: bytes)
    requires Valid(sc, m) && Tokenise(s).Some?
    ensures Parse(sc, m, s + t) == match Parse(sc, m, s) case None => None case Some(m') => Parse(sc, m', t)
  {
    TokeniseConcat(s, t);
    TokensOk(s);
    if Tokenise(t).Some? {
      TokensOk(t);
      ApplyAllConcat(sc, m, Tokenise(s).value, Tokenise(t).value);
    }
  }

  // ---- Slots are independent -----------------------------------------------------

  /** The records the switch sends to slot `i` (Some) or to the unknown fields (None), in wire order. */
  function Select(sc: Schema, rs: seq<Record>, i: Option<nat>): seq<Record> {
    if rs == [] then []
    else if Find(sc, rs[0]) == i then [rs[0]] + Select(sc, rs[1..], i)
    else Select(sc, rs[1..], i)
  }

  lemma {:induction false} SelectLegal(sc: Schema, rs: seq<Record>, i: Option<nat>)
    requires RecordsOk(rs)
    ensures RecordsOk(Select(sc, rs, i))
    ensures forall k :: 0 <= k < |Select(sc, rs, i)| ==> Find(sc, Select(sc, rs, i)[k]) == i
  {
    if rs != [] {
      SelectLegal(sc, rs[1..], i);
    }
  }

  lemma {:induction false} SelectConcat(sc: Schema, xs: seq<Record>, ys: seq<Record>, i: Option<nat>)
    ensures Select(sc, xs + ys, i) == Select(sc, xs, i) + Select(sc, ys, i)
  {
    if xs == [] {
      assert xs + ys == ys;
    } else {
      assert (xs + ys)[1..] == xs[1..] + ys;
      SelectConcat(sc, xs[1..], ys, i);
    }
  }

  predicate AllAccepted(slot: Slot, rs: seq<Record>) {
    forall k :: 0 <= k < |rs| ==> RecordOk(rs[k]) && Accepts(slot, rs[k].num, WireType(rs[k].body))
  }

  /** The switch case of one slot, folded over a list of its records. */
  function SlotFold(slot: Slot, v: Val, rs: seq<Record>): (r: Option<Val>)
    requires ValidVal(slot, v) && AllAccepted(slot, rs)
    ensures r.Some? ==> ValidVal(slot, r.value)
    decreases |rs|
  {
    if rs == [] then Some(v)
    else
      match SlotStep(slot, v, rs[0])
      case None => None
      case Some(v') => SlotFold(slot, v', rs[1..])
  }

  /** What slot `i` of the message holds after the records of `rs`. */
  function SlotResult(sc: Schema, m: Msg, rs: seq<Record>, i: nat): (r: Option<Val>)
    requires Valid(sc, m) && RecordsOk(rs) && i < |sc.slots|
    ensures r.Some? ==> ValidVal(sc.slots[i], r.value)
  {
    SelectLegal(sc, rs, Some(i));
    SlotFold(sc.slots[i], m.vals[i], Select(sc, rs, Some(i)))
  }

  /** Slot `i`'s result, seen from after the first turn of the loop; a failed turn fails only its own slot. */
  function AfterTurn(sc: Schema, m: Msg, rs: seq<Record>, i: nat): Option<Val>
    requires Valid(sc, m) && RecordsOk(rs) && rs != [] && i < |sc.slots|
  {
    match Apply(sc, m, rs[0])
    case None => if Find(sc, rs[0]) == Some(i) then None else SlotResult(sc, m, rs[1..], i)
    case Some(m') => SlotResult(sc, m', rs[1..], i)
  }

  lemma OneTurn(sc: Schema, m: Msg, rs: seq<Record>, i: nat)
    requires Valid(sc, m) && RecordsOk(rs) && rs != [] && i < |sc.slots|
    ensures SlotResult(sc, m, rs, i) == AfterTurn(sc, m, rs, i)
  {
    var sel := Select(sc, rs, Some(i));
    SelectLegal(sc, rs, Some(i));
    if Find(sc, rs[0]) == Some(i) {
      assert sel[0] == rs[0] && sel[1..] == Select(sc, rs[1..], Some(i));
    }
  }

  lemma UnknownTurn(sc: Schema, m: Msg, rs: seq<Record>)
    requires Valid(sc, m) && RecordsOk(rs) && rs != [] && Apply(sc, m, rs[0]).Some?
    ensures Apply(sc, m, rs[0]).value.unknown + Select(sc, rs[1..], None) == m.unknown + Select(sc, rs, None)
  {
    hide Find, SlotStep, Valid;
    var later := Select(sc, rs[1..], None);
    assert (m.unknown + [rs[0]]) + later == m.unknown + ([rs[0]] + later);
  }

  ghost predicate AllSlotsParse(sc: Schema, m: Msg, rs: seq<Record>)
    requires Valid(sc, m) && RecordsOk(rs)
  {
    forall i :: 0 <= i < |sc.slots| ==> SlotResult(sc, m, rs, i).Some?
  }

  /**
   * The parse loop succeeds exactly when every slot's own fold succeeds, and then each slot holds its
   * own fold and the unmatched records follow the old unknown fields in wire order.
   */
  lemma {:induction false} ParseIsSlotwise(sc: Schema, m: Msg, rs: seq<Record>)
    requires Valid(sc, m) && RecordsOk(rs)
    ensures ApplyAll(sc, m, rs).Some? <==> AllSlotsParse(sc, m, rs)
    ensures ApplyAll(sc, m, rs).Some? ==> ApplyAll(sc, m, rs).value.unknown == m.unknown + Select(sc, rs, None)
    ensures ApplyAll(sc, m, rs).Some? ==>
              forall i :: 0 <= i < |sc.slots| ==> SlotResult(sc, m, rs, i) == Some(ApplyAll(sc, m, rs).value.vals[i])
    decreases |rs|
  {
    if rs != [] {
      forall i | 0 <= i < |sc.slots|
        ensures SlotResult(sc, m, rs, i) == AfterTurn(sc, m, rs, i)
      {
        OneTurn(sc, m, rs, i);
      }
      match Apply(sc, m, rs[0])
      case None =>
        assert AfterTurn(sc, m, rs, Find(sc, rs[0]).value).None?;
      case Some(m') =>
        ParseIsSlotwise(sc, m', rs[1..]);
        assert forall i :: 0 <= i < |sc.slots| ==> SlotResult(sc, m, rs, i) == SlotResult(sc, m', rs[1..], i);
        UnknownTurn(sc, m, rs);
    }
  }

  // ---- Field order ---------------------------------------------------------------------

  /** Equal up to the order of unknown fields. */
  predicate SameKnown(p: Option<Msg>, q: Option<Msg>) {
    if p.None? || q.None? then p == q else p.value.vals == q.value.vals
  }

  lemma SelectSwap(sc: Schema, xs: seq<Record>, r: Record, t: Record, ys: seq<Record>, i: Option<nat>)
    requires Find(sc, r) != Find(sc, t) || i != Find(sc, r)
    ensures Select(sc, xs + [r, t] + ys, i) == Select(sc, xs + [t, r] + ys, i)
  {
    SelectConcat(sc, xs + [r, t], ys, i);
    SelectConcat(sc, xs + [t, r], ys, i);
    SelectConcat(sc, xs, [r, t], i);
    SelectConcat(sc, xs, [t, r], i);
    assert [r, t][1..] == [t] && [t, r][1..] == [r];
    assert [t][1..] == [] && [r][1..] == [];
  }

  lemma {:induction false} SameSlotsSameKnown(sc: Schema, m: Msg, xs: seq<Record>, ys: seq<Record>)
    requires Valid(sc, m) && RecordsOk(xs) && RecordsOk(ys)
    requires forall i :: 0 <= i < |sc.slots| ==> Select(sc, xs, Some(i)) == Select(sc, ys, Some(i))
    ensures SameKnown(ApplyAll(sc, m, xs), ApplyAll(sc, m, ys))
  {
    ParseIsSlotwise(sc, m, xs);
    ParseIsSlotwise(sc, m, ys);
    forall i | 0 <= i < |sc.slots|
      ensures SlotResult(sc, m, xs, i) == SlotResult(sc, m, ys, i)
    {
      assert Select(sc, xs, Some(i)) == Select(sc, ys, Some(i));
    }
    if ApplyAll(sc, m, xs).Some? {
      var p, q := ApplyAll(sc, m, xs).value, ApplyAll(sc, m, ys).value;
      assert p.vals == q.vals;
    }
  }

  /** Two record sequences that agree slot by slot, and on the unknown records, parse alike. */
  lemma {:induction false} SameProjectionsParseAlike(sc: Schema, m: Msg, xs: seq<Record>, ys: seq<Record>)
    requires Valid(sc, m) && RecordsOk(xs) && RecordsOk(ys)
    requires forall i :: 0 <= i < |sc.slots| ==> Select(sc, xs, Some(i)) == Select(sc, ys, Some(i))
    requires Select(sc, xs, None) == Select(sc, ys, None)
    ensures ApplyAll(sc, m, xs) == ApplyAll(sc, m, ys)
  {
    SameSlotsSameKnown(sc, m, xs, ys);
    ParseIsSlotwise(sc, m, xs);
    ParseIsSlotwise(sc, m, ys);
  }

  /**
   * Swapping two adjacent records that go to different slots changes nothing, and swapping two
   * unknown records changes only the order of the unknown fields. Two oneof cases share a slot.
   */
  lemma {:induction false} AdjacentSwap(sc: Schema, m: Msg, xs: seq<Record>, r: Record, t: Record, ys: seq<Record>)
    requires Valid(sc, m) && RecordsOk(xs) && RecordOk(r) && RecordOk(t) && RecordsOk(ys)
    requires Find(sc, r) != Find(sc, t) || Find(sc, r).None?
    ensures RecordsOk(xs + [r, t] + ys) && RecordsOk(xs + [t, r] + ys)
    ensures SameKnown(ApplyAll(sc, m, xs + [r, t] + ys), ApplyAll(sc, m, xs + [t, r] + ys))
    ensures Find(sc, r) != Find(sc, t) ==> ApplyAll(sc, m, xs + [r, t] + ys) == ApplyAll(sc, m, xs + [t, r] + ys)
  {
    var p, q := xs + [r, t] + ys, xs + [t, r] + ys;
    forall i: nat | i < |sc.slots|
      ensures Select(sc, p, Some(i)) == Select(sc, q, Some(i))
    {
      SelectSwap(sc, xs, r, t, ys, Some(i));
    }
    if Find(sc, r) != Find(sc, t) {
      SelectSwap(sc, xs, r, t, ys, None);
      SameProjectionsParseAlike(sc, m, p, q);
    } else {
      SameSlotsSameKnown(sc, m, p, q);
    }
  }
}
