// What a failed parse leaves in the message. Every switch case changes the message
// in steps, and a failure stops it half way; the callers that ignore the result of
// a parse go on with whatever is there.
module Failures {
  import opened Bytes
  import opened Varints
  import opened Wire
  import opened Codec

  /** `s` starts with ten bytes that are no varint, or with five that are no acceptable length. */
  predicate Refused(wireType: nat, s: bytes) {
    || (wireType == 0 && |s| >= 10 && ReadVarint(s, 10, true).None?)
    || (wireType == 2 && |s| >= 5 && ReadSize(s).None?)
  }

  /**
   * What a switch case has done by the time its varint or its length is refused: a scalar was assigned
   * the 0 that the failed read returns (an enum only after the check), a list has a new element, a
   * submessage was created.
   */
  function OnRefused(slot: Slot, v: Val, num: nat, wireType: nat): (v': Val)
    requires ValidVal(slot, v) && Accepts(slot, num, wireType)
    ensures ValidVal(slot, v')
  {
    match slot
    case Number(_, ty) => if ty == Enum then v else Num(0)
    case Text(_) => v
    case Packed(_) => if wireType == 0 then Nums(v.ns + [0]) else v
    case Repeated(_, sub) => Subs(v.ms + [Default(sub)])
    case Choice(cases) => var j := CaseOf(cases, num); Chosen(j, CaseBase(cases, v, j))
  }

  /** An unknown length-delimited field is added, empty, before its length is read. */
  function AfterRefused(sc: Schema, m: Msg, num: nat, wireType: nat): (m': Msg)
    requires Valid(sc, m) && 1 <= num <= MAX_FIELD
    ensures Valid(sc, m')
  {
    match FindBelow(sc.slots, num, wireType, |sc.slots|)
    case Some(i) => Put(m, i, OnRefused(sc.slots[i], m.vals[i], num, wireType))
    case None => if wireType == 2 then m.(unknown := m.unknown + [Record(num, Len([]))]) else m
  }

  /** The values of a packed payload before the first varint that is too long; None if it is merely cut off. */
  function PackedBefore(s: bytes): (r: Option<seq<nat>>)
    ensures r.Some? ==> forall i :: 0 <= i < |r.value| ==> r.value[i] < TWO_64
  {
    if s == [] then None
    else
      match ReadVarint(s, 10, true)
      case None => if |s| >= 10 then Some([]) else None
      case Some((v, n)) =>
        match PackedBefore(s[n..])
        case None => None
        case Some(rest) => Some([v] + rest)
  }

  /** What a slot holds after a whole record that its switch case rejects. */
  function LeftInSlot(slot: Slot, v: Val, r: Record): (r': Option<Val>)
    requires ValidVal(slot, v) && RecordOk(r) && Accepts(slot, r.num, WireType(r.body))
    ensures r'.Some? ==> ValidVal(slot, r'.value)
    decreases slot, 0, 0
  {
    match slot
    case Number(_, _) => None
    case Text(_) => Some(Str(r.body.s))
    case Packed(_) =>
      if r.body.Varint? then None
      else
        (match PackedBefore(r.body.s)
         case None => None
         case Some(ns) => Some(Nums(v.ns + ns)))
    case Repeated(_, sub) =>
      (match AfterFailure(sub, Default(sub), r.body.s)
       case None => None
       case Some(x) => Some(Subs(v.ms + [x])))
    case Choice(cases) =>
      var j := CaseOf(cases, r.num);
      match AfterFailure(cases[j].sub, CaseBase(cases, v, j), r.body.s)
      case None => None
      case Some(x) => Some(Chosen(j, x))
  }

  /**
   * The message that a failed parse of `s` into `m` leaves behind, whenever the failure does not depend
   * on bytes beyond the end of the input: the whole records before the failure, and what the failing
   * switch case did before it. None if the parse succeeds, if the input ends inside a record, and for groups.
   */
  function AfterFailure(sc: Schema, m: Msg, s: bytes): (r: Option<Msg>)
    requires Valid(sc, m)
    ensures r.Some? ==> Valid(sc, r.value)
    decreases sc, |s|, 1
  {
    if s == [] then None
    else
      match ReadTag(s)
      case None => if |s| >= 5 then Some(m) else None
      case Some((tag, n)) =>
        if tag / 8 == 0 || tag % 8 == 4 || tag % 8 > 5 then Some(m)
        else if Refused(tag % 8, s[n..]) then Some(AfterRefused(sc, m, tag / 8, tag % 8))
        else if ReadRecord(s).None? then None
        else AfterRecord(sc, m, s)
  }

  /** The same, behind the whole record at the front of `s`. */
  function AfterRecord(sc: Schema, m: Msg, s: bytes): (r': Option<Msg>)
    requires Valid(sc, m) && ReadRecord(s).Some?
    ensures r'.Some? ==> Valid(sc, r'.value)
    decreases sc, |s|, 0
  {
    var (r, n) := ReadRecord(s).value;
    ReadRecordOk(s);
    match Find(sc, r)
    case None => AfterFailure(sc, m.(unknown := m.unknown + [r]), s[n..])
    case Some(i) =>
      match SlotStep(sc.slots[i], m.vals[i], r)
      case Some(v) => AfterFailure(sc, Put(m, i, v), s[n..])
      case None =>
        match LeftInSlot(sc.slots[i], m.vals[i], r)
        case None => None
        case Some(v) => Some(Put(m, i, v))
  }

  /** A record that is read whole is not one that is refused. */
  lemma WholeRecord(sc: Schema, m: Msg, s: bytes)
    requires Valid(sc, m) && ReadRecord(s).Some?
    ensures AfterFailure(sc, m, s) == AfterRecord(sc, m, s)
  {
    var (tag, n) := ReadTag(s).value;
    assert ReadBody(tag % 8, s[n..]).Some?;
  }

  /** What is left behind comes from a failure: the parse itself fails. */
  lemma {:induction false} FailureIsFailure(sc: Schema, m: Msg, s: bytes)
    requires Valid(sc, m) && AfterFailure(sc, m, s).Some?
    ensures Parse(sc, m, s).None?
    decreases |s|
  {
    hide SlotStep, LeftInSlot, AfterRefused, ReadRecord, Valid;
    if ReadRecord(s).Some? {
      WholeRecord(sc, m, s);
      LoopTurn(sc, m, s);
      var (r, n) := ReadRecord(s).value;
      if Apply(sc, m, r).Some? { FailureIsFailure(sc, Apply(sc, m, r).value, s[n..]); }
    }
  }

  // ---- Which bytes decide ------------------------------------------------------------

  lemma RefusedStays(wireType: nat, s: bytes, rest: bytes)
    requires Refused(wireType, s)
    ensures Refused(wireType, s + rest)
  {
    hide DecodeVarint;
    if wireType == 0 {
      DecodeFinal(s, rest, 10);
    } else if DecodeVarint(s, 5).None? {
      DecodeFinal(s, rest, 5);
    } else {
      DecodeStable(s, rest, 5);
    }
  }

  /** A failure is final: whatever follows the input, what is left behind is the same. */
  lemma {:induction false} FailureIsFinal(sc: Schema, m: Msg, s: bytes, rest: bytes)
    requires Valid(sc, m) && AfterFailure(sc, m, s).Some?
    ensures AfterFailure(sc, m, s + rest) == AfterFailure(sc, m, s)
    decreases |s|
  {
    hide SlotStep, LeftInSlot, AfterRefused, Valid, DecodeVarint, Refused, ReadBody;
    if ReadTag(s).None? {
      DecodeFinal(s, rest, 5);
    } else {
      DecodeStable(s, rest, 5);
      var (tag, n) := ReadTag(s).value;
      assert (s + rest)[n..] == s[n..] + rest;
      if Refused(tag % 8, s[n..]) {
        RefusedStays(tag % 8, s[n..], rest);
      } else if ReadRecord(s).Some? {
        ReadRecordOk(s);
        ReadRecordStable(s, rest);
        WholeRecord(sc, m, s);
        WholeRecord(sc, m, s + rest);
        var (r, k) := ReadRecord(s).value;
        assert (s + rest)[k..] == s[k..] + rest;
        if Apply(sc, m, r).Some? { FailureIsFinal(sc, Apply(sc, m, r).value, s[k..], rest); }
      }
    }
  }

  /** Behind input that parses, a failure starts from what that input was parsed to. */
  lemma {:induction false} FailureAfterPrefix(sc: Schema, m: Msg, s: bytes, rest: bytes)
    requires Valid(sc, m) && Parse(sc, m, s).Some?
    ensures AfterFailure(sc, m, s + rest) == AfterFailure(sc, Parse(sc, m, s).value, rest)
    decreases |s|
  {
    hide SlotStep, LeftInSlot, AfterRefused, Valid, ReadRecord;
    if s == [] {
      assert s + rest == rest;
    } else {
      LoopTurn(sc, m, s);
      ReadRecordStable(s, rest);
      WholeRecord(sc, m, s + rest);
      var (r, k) := ReadRecord(s).value;
      assert (s + rest)[k..] == s[k..] + rest;
      FailureAfterPrefix(sc, Apply(sc, m, r).value, s[k..], rest);
    }
  }

  /** The parse loop as a recursion: read one record, apply it, go on with the rest. */
  lemma LoopTurn(sc: Schema, m: Msg, s: bytes)
    requires Valid(sc, m) && ReadRecord(s).Some?
    ensures var (r, n) := ReadRecord(s).value;
            RecordOk(r) &&
            Parse(sc, m, s) == match Apply(sc, m, r) case None => None case Some(m') => Parse(sc, m', s[n..])
  {
    var (r, n) := ReadRecord(s).value;
    ReadRecordOk(s);
    if Tokenise(s[n..]).Some? {
      var rs := Tokenise(s[n..]).value;
      assert ([r] + rs)[1..] == rs;
    }
  }
}
