// The runtime calls the generated code makes: reading one value after a tag,
// writing one record, and the bookkeeping that ties each call to the reference codec.
module Runtime {
  import opened Bytes
  import opened Varints
  import opened Wire
  import opened Utf8
  import opened Codec
  import opened Failures
  import opened RoundTrip

  type uint64 = x: int | 0 <= x < TWO_64
  type uint32 = x: int | 0 <= x < TWO_32
  type int32 = x: int | -0x8000_0000 <= x < 0x8000_0000

  // ---- Reading -----------------------------------------------------------------

  /** The parse loop read `tag` at `ptr` of the input window `s`; its value starts at `p`. */
  ghost predicate TagRead(s: bytes, ptr: nat, tag: nat, p: nat) {
    ptr < p <= |s| && ReadTag(s[ptr..]) == Some((tag, p - ptr))
  }

  /** The record at `ptr` of the window is `r`, and the next one starts at `next`. */
  ghost predicate RecordRead(s: bytes, ptr: nat, r: Record, next: nat) {
    ptr < next <= |s| && ReadRecord(s[ptr..]) == Some((r, next - ptr))
  }

  method ReadTagAt(s: bytes, ptr: nat) returns (ok: bool, tag: nat, p: nat)
    requires ptr < |s|
    ensures ok ==> TagRead(s, ptr, tag, p)
    ensures !ok ==> ReadTag(s[ptr..]).None?
  {
    var r := AccumulateVarint(s[ptr..], 5, false);
    match r
    case None => return false, 0, ptr;
    case Some((v, n)) => return true, v, ptr + n;
  }

  lemma BodyAt(s: bytes, ptr: nat, tag: nat, p: nat)
    requires TagRead(s, ptr, tag, p)
    ensures s[ptr..][p - ptr..] == s[p..]
    ensures tag / 8 == 0 ==> ReadRecord(s[ptr..]).None?
    ensures tag / 8 != 0 ==>
              ReadRecord(s[ptr..]) ==
              match ReadBody(tag % 8, s[p..])
              case None => None
              case Some((b, k)) => Some((Record(tag / 8, b), p - ptr + k))
  {
    assert s[ptr..][p - ptr..] == s[p..];
  }

  /** ReadVarint64 and ReadVarint32: both consume up to ten bytes; the narrow one keeps the low 32 bits. */
  method ReadVarintAt(s: bytes, ghost ptr: nat, tag: nat, p: nat, wide: bool)
    returns (ok: bool, v: nat, next: nat, ghost raw: nat)
    requires TagRead(s, ptr, tag, p) && tag / 8 != 0 && tag % 8 == 0
    ensures ok ==> raw < TWO_64 && RecordRead(s, ptr, Record(tag / 8, Varint(raw)), next)
    ensures ok ==> v == if wide then raw else raw % 0x1_0000_0000
    ensures !ok ==> ReadRecord(s[ptr..]).None? && v == 0
  {
    BodyAt(s, ptr, tag, p);
    var r := AccumulateVarint(s[p..], 10, wide);
    match r
    case None =>
      return false, 0, p, 0;
    case Some((w, n)) =>
      raw := Wrap(DecodeVarint(s[p..], 10).value.0, true);
      NarrowWrap(DecodeVarint(s[p..], 10).value.0);
      return true, w, p + n, raw;
  }

  lemma NarrowWrap(v: nat)
    ensures Wrap(v, false) == Wrap(v, true) % 0x1_0000_0000
  {}

  /** A length and the window of that many bytes behind it. */
  method ReadPayloadAt(s: bytes, ghost ptr: nat, tag: nat, p: nat) returns (ok: bool, payload: bytes, next: nat)
    requires TagRead(s, ptr, tag, p) && tag / 8 != 0 && tag % 8 == 2
    ensures ok ==> RecordRead(s, ptr, Record(tag / 8, Len(payload)), next) && |payload| <= MAX_LEN
    ensures !ok ==> ReadRecord(s[ptr..]).None?
  {
    BodyAt(s, ptr, tag, p);
    var r := AccumulateSize(s[p..]);
    match r
    case None => return false, [], p;
    case Some((size, n)) =>
      if p + n + size > |s| { return false, [], p; }
      SubWindow(s, p, n, size);
      return true, s[p + n..p + n + size], p + n + size;
  }

  lemma SubWindow(s: bytes, p: nat, n: nat, size: nat)
    requires p + n + size <= |s|
    ensures s[p..][n..n + size] == s[p + n..p + n + size]
  {}

  method AccumulateSize(s: bytes) returns (r: Option<(nat, nat)>)
    ensures r == ReadSize(s)
  {
    r := AccumulateVarint(s, 5, true);
    Powers();
    if r.Some? {
      DecodeBound(s, 5);
      if r.value.0 > MAX_LEN { r := None; }
    }
  }

  lemma {:induction false} DecodeBound(s: bytes, room: nat)
    requires DecodeVarint(s, room).Some?
    ensures DecodeVarint(s, room).value.0 < Pow128(room)
  {
    if s[0] >= 128 {
      DecodeBound(s[1..], room - 1);
    }
  }

  method ReadFixed32At(s: bytes, ghost ptr: nat, tag: nat, p: nat) returns (ok: bool, v: uint32, next: nat)
    requires TagRead(s, ptr, tag, p) && tag / 8 != 0 && tag % 8 == 5
    ensures ok ==> RecordRead(s, ptr, Record(tag / 8, Fixed32(v)), next)
    ensures ok ==> next == p + 4 <= |s|
    ensures ok ==> v == s[p] + 0x100 * (s[p + 1] as int) + 0x1_0000 * (s[p + 2] as int) + 0x100_0000 * (s[p + 3] as int)
    ensures !ok ==> ReadRecord(s[ptr..]).None?
  {
    BodyAt(s, ptr, tag, p);
    if p + 4 > |s| { return false, 0, p; }
    LittleEndianBound(s[p..][..4]);
    FixedWidths();
    assert s[p..][..4] == [s[p], s[p + 1], s[p + 2], s[p + 3]];
    ReadLittleEndian(s[p], s[p + 1], s[p + 2], s[p + 3]);
    return true, FromLittleEndian(s[p..][..4]), p + 4;
  }

  /**
   * UnknownFieldParse, and the test for a zero or end-group tag before it. `added` says that a field
   * joined the unknown ones, as a length-delimited one does before its length is read.
   */
  method ReadUnknownAt(s: bytes, ghost ptr: nat, tag: nat, p: nat) returns (ok: bool, added: bool, r: Record, next: nat)
    requires TagRead(s, ptr, tag, p)
    ensures ok ==> added && RecordRead(s, ptr, r, next)
    ensures added ==> RecordOk(r) && r.num == tag / 8 && WireType(r.body) == tag % 8
    ensures !ok ==> ReadRecord(s[ptr..]).None? && added == (tag / 8 != 0 && tag % 8 == 2)
    ensures !ok && added ==> r.body == Len([])
  {
    BodyAt(s, ptr, tag, p);
    r := Record(1, Len([]));
    if tag / 8 == 0 || tag % 8 == 4 { return false, false, r, p; }
    var body := ReadBody(tag % 8, s[p..]);
    match body
    case None => return false, tag % 8 == 2, Record(tag / 8, Len([])), p;
    case Some((b, k)) =>
      ReadRecordOk(s[ptr..]);
      return true, true, Record(tag / 8, b), p + k;
  }

  /** One turn of a parse loop over a whole record. */
  lemma TurnAt(sc: Schema, m: Msg, s: bytes, ptr: nat, r: Record, next: nat)
    requires Valid(sc, m) && RecordRead(s, ptr, r, next)
    ensures RecordOk(r)
    ensures Parse(sc, m, s[ptr..]) == match Apply(sc, m, r) case None => None case Some(m') => Parse(sc, m', s[next..])
    ensures Apply(sc, m, r).Some? ==>
                AfterFailure(sc, m, s[ptr..]) == AfterFailure(sc, Apply(sc, m, r).value, s[next..])
    ensures Apply(sc, m, r).None? ==> AfterFailure(sc, m, s[ptr..]) == AfterRecord(sc, m, s[ptr..])
  {
    hide Parse, AfterFailure, LeftInSlot, SlotStep;
    LoopTurn(sc, m, s[ptr..]);
    WholeRecord(sc, m, s[ptr..]);
    assert s[ptr..][next - ptr..] == s[next..];
  }

  // ---- The cases of a parse loop's switch ------------------------------------------------

  /** Parsing `m` from `ptr` on is parsing `m'` from `next` on. */
  ghost predicate Continues(sc: Schema, s: bytes, m: Msg, ptr: nat, m': Msg, next: nat) {
    && Valid(sc, m) && Valid(sc, m') && ptr < next <= |s|
    && Parse(sc, m, s[ptr..]) == Parse(sc, m', s[next..])
    && AfterFailure(sc, m, s[ptr..]) == AfterFailure(sc, m', s[next..])
  }

  /** Parsing `m` from `ptr` on fails, and `left` is what it leaves behind. */
  ghost predicate Fails(sc: Schema, s: bytes, m: Msg, ptr: nat, left: Msg) {
    && Valid(sc, m) && Valid(sc, left) && ptr < |s| && Parse(sc, m, s[ptr..]).None?
    && (AfterFailure(sc, m, s[ptr..]).Some? ==> left == AfterFailure(sc, m, s[ptr..]).value)
  }

  /** The outcome of a whole parse loop that started on `m0` and ended with `m`. */
  ghost predicate Parsed(sc: Schema, m0: Msg, s: bytes, ok: bool, m: Msg) {
    && Valid(sc, m0) && Valid(sc, m)
    && Parse(sc, m0, s) == (if ok then Some(m) else None)
    && (AfterFailure(sc, m0, s).Some? ==> m == AfterFailure(sc, m0, s).value)
  }

  /** A parse loop that started on `m0` at `start` now holds `m` at `at`. */
  ghost predicate Reached(sc: Schema, s: bytes, m0: Msg, start: nat, m: Msg, at: nat) {
    (m0 == m && start == at && Valid(sc, m)) || Continues(sc, s, m0, start, m, at)
  }

  lemma ReachedNext(sc: Schema, s: bytes, m0: Msg, start: nat, m: Msg, at: nat, m': Msg, next: nat)
    requires Reached(sc, s, m0, start, m, at) && Continues(sc, s, m, at, m', next)
    ensures Continues(sc, s, m0, start, m', next)
  {}

  lemma ReachedFails(sc: Schema, s: bytes, m0: Msg, start: nat, m: Msg, at: nat, left: Msg)
    requires Reached(sc, s, m0, start, m, at) && Fails(sc, s, m, at, left)
    ensures Fails(sc, s, m0, start, left)
  {}

  /** The whole loop: from the start of the window to its end. */
  lemma ReachedEnd(sc: Schema, s: bytes, m0: Msg, m: Msg)
    requires Reached(sc, s, m0, 0, m, |s|)
    ensures Parsed(sc, m0, s, true, m)
  {
    assert s[0..] == s && s[|s|..] == [];
    assert Tokenise([]) == Some([]) && Parse(sc, m, []) == Some(m);
  }

  lemma FailsAtStart(sc: Schema, s: bytes, m: Msg, left: Msg)
    requires Fails(sc, s, m, 0, left)
    ensures Parsed(sc, m, s, false, left)
  {
    assert s[0..] == s;
  }

  lemma NoTurn(sc: Schema, m: Msg, s: bytes, ptr: nat)
    requires Valid(sc, m) && ptr < |s| && ReadTag(s[ptr..]).None?
    ensures Fails(sc, s, m, ptr, m)
  {}

  lemma FieldTurn(sc: Schema, m: Msg, s: bytes, ptr: nat, r: Record, next: nat, i: nat)
    requires SchemaOk(sc) && Valid(sc, m) && RecordRead(s, ptr, r, next)
    requires i < |sc.slots| && Accepts(sc.slots[i], r.num, WireType(r.body))
    ensures RecordOk(r)
    ensures match SlotStep(sc.slots[i], m.vals[i], r)
            case Some(v) => Continues(sc, s, m, ptr, Put(m, i, v), next)
            case None =>
              match LeftInSlot(sc.slots[i], m.vals[i], r)
              case Some(v) => Fails(sc, s, m, ptr, Put(m, i, v))
              case None => forall left :: Valid(sc, left) ==> Fails(sc, s, m, ptr, left)
  {
    hide SlotStep, LeftInSlot, AfterFailure, Parse;
    FindSlot(sc, i, r);
    TurnAt(sc, m, s, ptr, r, next);
  }

  /** A varint or payload of slot `i` that cannot be read. */
  lemma BrokenField(sc: Schema, m: Msg, s: bytes, ptr: nat, tag: nat, p: nat, i: nat)
    requires SchemaOk(sc) && Valid(sc, m) && TagRead(s, ptr, tag, p) && ReadRecord(s[ptr..]).None?
    requires i < |sc.slots| && Accepts(sc.slots[i], tag / 8, tag % 8) && tag / 8 != 0
    ensures Fails(sc, s, m, ptr, Put(m, i, OnRefused(sc.slots[i], m.vals[i], tag / 8, tag % 8)))
  {
    hide OnRefused, Accepts, SchemaOk;
    BodyAt(s, ptr, tag, p);
    AcceptedWire(sc.slots[i], tag / 8, tag % 8);
    FindNumber(sc, i, tag / 8, tag % 8);
    BrokenParse(sc, m, s[ptr..]);
    PutValid(sc, m, i, OnRefused(sc.slots[i], m.vals[i], tag / 8, tag % 8));
  }

  lemma AcceptedWire(slot: Slot, num: nat, wireType: nat)
    requires Accepts(slot, num, wireType)
    ensures wireType == 0 || wireType == 2 || wireType == 5
  {}

  lemma PutValid(sc: Schema, m: Msg, i: nat, v: Val)
    requires Valid(sc, m) && i < |sc.slots| && ValidVal(sc.slots[i], v)
    ensures Valid(sc, Put(m, i, v))
  {}

  lemma BrokenParse(sc: Schema, m: Msg, s: bytes)
    requires Valid(sc, m) && s != [] && ReadRecord(s).None?
    ensures Parse(sc, m, s).None?
  {}

  /** An unmatched record that cannot be read. */
  lemma BrokenUnknown(sc: Schema, m: Msg, s: bytes, ptr: nat, tag: nat, p: nat)
    requires Valid(sc, m) && TagRead(s, ptr, tag, p) && ReadRecord(s[ptr..]).None?
    requires FindBelow(sc.slots, tag / 8, tag % 8, |sc.slots|).None?
    ensures tag / 8 <= MAX_FIELD
    ensures var added := tag / 8 != 0 && tag % 8 == 2;
            var left := if added then m.(unknown := m.unknown + [Record(tag / 8, Len([]))]) else m;
            Fails(sc, s, m, ptr, left)
  {
    hide FindBelow;
    BodyAt(s, ptr, tag, p);
    BrokenParse(sc, m, s[ptr..]);
  }

  /** A scalar field: ReadVarint64, ReadVarint32 or a fixed load, stored in slot `i`; a failed read gives 0. */
  method ReadNumber(
    s: bytes, ghost ptr: nat, tag: nat, p: nat, ty: NumberType, ghost sc: Schema, ghost m: Msg, ghost i: nat
  ) returns (ok: bool, v: int, next: nat)
    requires SchemaOk(sc) && Valid(sc, m) && TagRead(s, ptr, tag, p)
    requires i < |sc.slots| && sc.slots[i] == Number(tag / 8, ty) && tag / 8 != 0 && tag % 8 == NumberWire(ty)
    ensures InRange(ty, v) && i < |m.vals| && Valid(sc, Put(m, i, Num(v)))
    ensures ok ==> Continues(sc, s, m, ptr, Put(m, i, Num(v)), next)
    ensures !ok ==> Fails(sc, s, m, ptr, if ty == Enum then m else Put(m, i, Num(v)))
  {
    hide Continues, Fails;
    if ty == Float32 {
      ok, v, next := ReadFixed32At(s, ptr, tag, p);
      if ok { FieldTurn(sc, m, s, ptr, Record(tag / 8, Fixed32(v)), next, i); }
    } else {
      ghost var raw;
      ok, v, next, raw := ReadVarintAt(s, ptr, tag, p, ty == UInt64 || ty == Enum);
      if ok {
        if ty == Enum { v := v % 0x1_0000_0000; }
        if ty == Int32 || ty == Enum { v := ToSigned32(v); }
        FieldTurn(sc, m, s, ptr, Record(tag / 8, Varint(raw)), next, i);
      }
    }
    if !ok {
      v := 0;
      BrokenField(sc, m, s, ptr, tag, p, i);
      assert ty == Enum ==> Put(m, i, m.vals[i]) == m;
    }
  }

  /** InlineGreedyStringParser and VerifyUTF8: `stored` says that the string was read, valid or not. */
  method ReadText(s: bytes, ghost ptr: nat, tag: nat, p: nat, ghost sc: Schema, ghost m: Msg, ghost i: nat)
    returns (ok: bool, stored: bool, t: bytes, next: nat)
    requires SchemaOk(sc) && Valid(sc, m) && TagRead(s, ptr, tag, p)
    requires i < |sc.slots| && sc.slots[i] == Text(tag / 8) && tag / 8 != 0 && tag % 8 == 2
    ensures i < |m.vals| && Valid(sc, Put(m, i, Str(t))) && (ok ==> stored)
    ensures ok ==> Continues(sc, s, m, ptr, Put(m, i, Str(t)), next)
    ensures !ok ==> Fails(sc, s, m, ptr, if stored then Put(m, i, Str(t)) else m)
  {
    hide Continues, Fails;
    ok, t, next := ReadPayloadAt(s, ptr, tag, p);
    stored := ok;
    if ok {
      FieldTurn(sc, m, s, ptr, Record(tag / 8, Len(t)), next, i);
      ok := ValidUtf8(t);
    } else {
      BrokenField(sc, m, s, ptr, tag, p, i);
      assert Put(m, i, m.vals[i]) == m;
    }
  }

  /** The `handle_unusual` tail of the switch. */
  method ReadUnknown(s: bytes, ghost ptr: nat, tag: nat, p: nat, ghost sc: Schema, ghost m: Msg)
    returns (ok: bool, added: bool, r: Record, next: nat)
    requires Valid(sc, m) && TagRead(s, ptr, tag, p)
    requires forall i :: 0 <= i < |sc.slots| ==> !Accepts(sc.slots[i], tag / 8, tag % 8)
    ensures ok ==> added
    ensures added ==> Valid(sc, m.(unknown := m.unknown + [r]))
    ensures ok ==> Continues(sc, s, m, ptr, m.(unknown := m.unknown + [r]), next)
    ensures !ok ==> Fails(sc, s, m, ptr, if added then m.(unknown := m.unknown + [r]) else m)
  {
    hide Continues, Fails;
    ok, added, r, next := ReadUnknownAt(s, ptr, tag, p);
    assert FindBelow(sc.slots, tag / 8, tag % 8, |sc.slots|).None?;
    if ok { UnknownTurn(sc, m, s, ptr, r, next); } else { BrokenUnknown(sc, m, s, ptr, tag, p); }
  }

  /** One turn of a parse loop whose record was unknown. */
  lemma UnknownTurn(sc: Schema, m: Msg, s: bytes, ptr: nat, r: Record, next: nat)
    requires Valid(sc, m) && RecordRead(s, ptr, r, next) && Find(sc, r) == None
    ensures RecordOk(r) && Valid(sc, m.(unknown := m.unknown + [r]))
    ensures Continues(sc, s, m, ptr, m.(unknown := m.unknown + [r]), next)
  {
    TurnAt(sc, m, s, ptr, r, next);
  }

  // ---- Writing -----------------------------------------------------------------------

  lemma Assoc(x: bytes, y: bytes, z: bytes)
    ensures (x + y) + z == x + (y + z)
  {}

  lemma Assoc4(w: bytes, x: bytes, y: bytes, z: bytes)
    ensures ((w + x) + y) + z == w + (x + (y + z))
  {}

  function SlotBytes(slot: Slot, v: Val): bytes
    requires ValidVal(slot, v)
  {
    Emit(SlotRecords(slot, v))
  }

  /** The output after the first k slots. */
  function Written(sc: Schema, m: Msg, k: nat): bytes
    requires Valid(sc, m) && k <= |sc.slots|
  {
    Emit(KnownUpTo(sc, m, k))
  }

  lemma WriteStart(sc: Schema, m: Msg, target: bytes)
    requires Valid(sc, m)
    ensures Written(sc, m, 0) == [] && target == target + Written(sc, m, 0)
  {}

  lemma WriteSlot(sc: Schema, m: Msg, k: nat, target: bytes, out: bytes, out': bytes)
    requires Valid(sc, m) && k < |sc.slots|
    requires out == target + Written(sc, m, k) && out' == out + SlotBytes(sc.slots[k], m.vals[k])
    ensures out' == target + Written(sc, m, k + 1)
  {
    EmitConcat(KnownUpTo(sc, m, k), SlotRecords(sc.slots[k], m.vals[k]));
    Assoc(target, Written(sc, m, k), SlotBytes(sc.slots[k], m.vals[k]));
  }

  lemma WriteEnd(sc: Schema, m: Msg, target: bytes, out: bytes)
    requires Valid(sc, m) && out == target + Written(sc, m, |sc.slots|)
    ensures out + Emit(m.unknown) == target + Serialize(sc, m)
  {
    EmitConcat(KnownUpTo(sc, m, |sc.slots|), m.unknown);
    Assoc(target, Written(sc, m, |sc.slots|), Emit(m.unknown));
  }

  lemma {:induction false} SizeStep(sc: Schema, m: Msg, k: nat)
    requires Valid(sc, m) && k < |sc.slots|
    ensures |Written(sc, m, k + 1)| == |Written(sc, m, k)| + |SlotBytes(sc.slots[k], m.vals[k])|
  {
    EmitConcat(KnownUpTo(sc, m, k), SlotRecords(sc.slots[k], m.vals[k]));
  }

  lemma SizeEnd(sc: Schema, m: Msg)
    requires Valid(sc, m)
    ensures |Serialize(sc, m)| == |Written(sc, m, |sc.slots|)| + |Emit(m.unknown)|
  {
    EmitConcat(KnownUpTo(sc, m, |sc.slots|), m.unknown);
  }

  lemma NumberBytes(num: nat, ty: NumberType, n: int)
    requires InRange(ty, n)
    ensures SlotBytes(Number(num, ty), Num(n)) == if n == 0 then [] else EmitRecord(Record(num, EncodeNumber(ty, n)))
  {
    if n != 0 { EmitOne(Record(num, EncodeNumber(ty, n))); }
  }

  lemma TextBytes(num: nat, t: bytes)
    ensures SlotBytes(Text(num), Str(t)) == if t == [] then [] else EmitRecord(Record(num, Len(t)))
  {
    if t != [] { EmitOne(Record(num, Len(t))); }
  }

  lemma PackedBytes(num: nat, ns: seq<nat>)
    requires ValidVal(Packed(num), Nums(ns))
    ensures SlotBytes(Packed(num), Nums(ns)) == if ns == [] then [] else EmitRecord(Record(num, Len(EncodePacked(ns))))
  {
    if ns != [] { EmitOne(Record(num, Len(EncodePacked(ns)))); }
  }

  lemma ChosenBytes(cases: seq<Case>, v: Val)
    requires ValidVal(Choice(cases), v)
    ensures SlotBytes(Choice(cases), v) ==
            if v.Unset? then [] else EmitRecord(Record(cases[v.i].num, Len(Serialize(cases[v.i].sub, v.m))))
  {
    if v.Chosen? { EmitOne(Record(cases[v.i].num, Len(Serialize(cases[v.i].sub, v.m)))); }
  }

  /** WriteUInt64ToArray, WriteUInt32ToArray, WriteInt32ToArray, WriteEnumToArray and WriteFloatToArray. */
  method WriteNumber(num: nat, ty: NumberType, n: int, target: bytes) returns (out: bytes)
    requires InRange(ty, n)
    ensures out == target + EmitRecord(Record(num, EncodeNumber(ty, n)))
  {
    hide EncodeVarint, LittleEndian;
    var p := EncodeNumber(ty, n);
    out := UnsafeVarint(Tag(num, NumberWire(ty)), target);
    if ty == Float32 {
      out := out + LittleEndian(n, 4);
    } else {
      out := UnsafeVarint(if n < 0 then n + TWO_64 else n, out);
    }
    Assoc(target, EncodeVarint(Tag(num, WireType(p))), EmitBody(p));
  }

  /** The generated `if (x != 0) target = Write...ToArray(num, x, target)`. */
  method WriteField(num: nat, ty: NumberType, n: int, target: bytes) returns (out: bytes)
    requires InRange(ty, n)
    ensures out == target + SlotBytes(Number(num, ty), Num(n))
  {
    hide EmitRecord, EncodeNumber;
    NumberBytes(num, ty, n);
    out := target;
    if n != 0 { out := WriteNumber(num, ty, n, target); }
  }

  /** WriteStringMaybeAliased: the length is narrowed to 32 bits, and so is what is written. */
  method WriteString(num: nat, t: bytes, target: bytes) returns (out: bytes)
    ensures out == target + EmitRecord(Record(num, Len(t[..|t| % 0x1_0000_0000])))
  {
    hide EncodeVarint, EmitRecord;
    var size := |t| % 0x1_0000_0000;
    out := UnsafeVarint(Tag(num, 2), target);
    out := UnsafeVarint(size, out);
    HeaderAndBody(num, t[..size], target, out);
    out := out + t[..size];
  }

  /** The generated `if (!s.empty()) target = WriteStringMaybeAliased(num, s, target)`. */
  method WriteTextField(num: nat, t: bytes, target: bytes) returns (out: bytes)
    ensures |t| < TWO_32 ==> out == target + SlotBytes(Text(num), Str(t))
  {
    hide EmitRecord;
    TextBytes(num, t);
    out := target;
    if t != [] { out := WriteString(num, t, target); }
    assert |t| < TWO_32 ==> t[..|t| % 0x1_0000_0000] == t;
  }

  lemma EmitNext(rs: seq<Record>, i: nat)
    requires i < |rs|
    ensures Emit(rs[..i + 1]) == Emit(rs[..i]) + EmitRecord(rs[i])
  {
    assert rs[..i + 1] == rs[..i] + [rs[i]];
    EmitConcat(rs[..i], [rs[i]]);
    EmitOne(rs[i]);
  }

  /** One unknown field, by its type. */
  method WriteRecord(r: Record, target: bytes) returns (out: bytes)
    ensures out == target + EmitRecord(r)
  {
    hide EncodeVarint, LittleEndian;
    Assoc(target, EncodeVarint(Tag(r.num, WireType(r.body))), EmitBody(r.body));
    out := UnsafeVarint(Tag(r.num, WireType(r.body)), target);
    match r.body
    case Varint(v) => out := UnsafeVarint(v, out);
    case Fixed64(v) => out := out + LittleEndian(v, 8);
    case Fixed32(v) => out := out + LittleEndian(v, 4);
    case Len(s) =>
      Assoc(out, EncodeVarint(|s|), s);
      out := UnsafeVarint(|s|, out);
      out := out + s;
  }

  /** InternalSerializeUnknownFieldsToArray. */
  method WriteUnknown(rs: seq<Record>, target: bytes) returns (out: bytes)
    ensures out == target + Emit(rs)
  {
    hide EmitRecord;
    out := target;
    var i := 0;
    assert rs[..0] == [];
    while i < |rs|
      invariant i <= |rs| && out == target + Emit(rs[..i])
    {
      EmitNext(rs, i);
      Assoc(target, Emit(rs[..i]), EmitRecord(rs[i]));
      out := WriteRecord(rs[i], out);
      i := i + 1;
    }
    assert rs[..|rs|] == rs;
  }

  /** The tag and the cached length in front of a submessage or packed list; the body follows. */
  method WriteHeader(num: nat, cachedSize: int, target: bytes) returns (out: bytes)
    ensures out == target + EncodeVarint(Tag(num, 2)) + EncodeVarint(AsUInt32(cachedSize))
  {
    out := UnsafeVarint(Tag(num, 2), target);
    out := UnsafeVarint(AsUInt32(cachedSize), out);
  }

  function AsUInt32(x: int): nat {
    x % 0x1_0000_0000
  }

  /** ToCachedSize: static_cast<int>(size). */
  function ToCachedSize(size: nat): int32 {
    ToSigned32(size % 0x1_0000_0000)
  }

  lemma CachedSizeReadsBack(size: nat)
    requires size < 0x8000_0000
    ensures ToCachedSize(size) == size && AsUInt32(ToCachedSize(size)) == size
  {}

  /** A header with the right length, followed by the body, is the record. */
  lemma HeaderAndBody(num: nat, body: bytes, target: bytes, out: bytes)
    requires out == target + EncodeVarint(Tag(num, 2)) + EncodeVarint(|body|)
    ensures out + body == target + EmitRecord(Record(num, Len(body)))
  {
    Assoc4(target, EncodeVarint(Tag(num, 2)), EncodeVarint(|body|), body);
  }

  // ---- Sizes --------------------------------------------------------------------------

  /** UInt64SizePlusOne and its 32-bit and enum variants, for a one-byte tag. */
  function NumberSize(ty: NumberType, n: int): (r: nat)
    requires InRange(ty, n)
    ensures r == |EmitBody(EncodeNumber(ty, n))|
  {
    match EncodeNumber(ty, n)
    case Varint(v) => VarintSize64(v)
    case Fixed64(_) => 8
    case Fixed32(_) => 4
    case Len(_) => 0
  }

  function RecordSize(r: Record): (n: nat)
    requires RecordOk(r)
    ensures n == |EmitRecord(r)|
  {
    VarintSize64(Tag(r.num, WireType(r.body))) +
    match r.body
    case Varint(v) => VarintSize64(v)
    case Fixed64(_) => 8
    case Fixed32(_) => 4
    case Len(s) => VarintSize64(|s|) + |s|
  }

  /** ComputeUnknownFieldsSize. */
  method UnknownSize(rs: seq<Record>) returns (size: nat)
    requires RecordsOk(rs)
    ensures size == |Emit(rs)|
  {
    hide EmitRecord;
    size := 0;
    var i := 0;
    assert rs[..0] == [];
    while i < |rs|
      invariant i <= |rs| && size == |Emit(rs[..i])|
    {
      EmitNext(rs, i);
      size := size + RecordSize(rs[i]);
      i := i + 1;
    }
    assert rs[..|rs|] == rs;
  }

  /** LengthDelimitedSize: the length is cast to 32 bits before the size of its prefix is looked up. */
  function LengthDelimitedSize(size: nat): (r: nat)
    ensures size < TWO_32 ==> r == |EncodeVarint(size)| + size
  {
    size + VarintSize64(size % 0x1_0000_0000)
  }

  lemma TagSize(num: nat, wireType: nat)
    requires wireType < 8 && num < 2048
    ensures |EncodeVarint(Tag(num, wireType))| == if num < 16 then 1 else 2
  {
    if num >= 16 { assert Tag(num, wireType) / 128 == num / 16; }
  }

  lemma NumberSlotSize(num: nat, ty: NumberType, n: int)
    requires InRange(ty, n) && num < 16
    ensures |SlotBytes(Number(num, ty), Num(n))| == if n == 0 then 0 else 1 + |EmitBody(EncodeNumber(ty, n))|
  {
    NumberBytes(num, ty, n);
    TagSize(num, NumberWire(ty));
  }

  /** The generated `if (x != 0) total_size += ...SizePlusOne(x)`. */
  function FieldSize(num: nat, ty: NumberType, n: int): (r: nat)
    requires InRange(ty, n) && num < 16
    ensures r == |SlotBytes(Number(num, ty), Num(n))|
  {
    hide EncodeVarint, SlotBytes, EncodeNumber;
    NumberSlotSize(num, ty, n);
    if n != 0 then 1 + NumberSize(ty, n) else 0
  }

  lemma TextSlotSize(num: nat, t: bytes)
    requires num < 16
    ensures |SlotBytes(Text(num), Str(t))| == if t == [] then 0 else 1 + |EncodeVarint(|t|)| + |t|
  {
    TextBytes(num, t);
    TagSize(num, 2);
  }

  // ---- Repeated submessages --------------------------------------------------------------

  /** The output for the first k elements of a repeated submessage field. */
  function SubsUpTo(num: nat, sub: Schema, ms: seq<Msg>, k: nat): bytes
    requires ValidVal(Repeated(num, sub), Subs(ms)) && k <= |ms|
  {
    if k == 0 then []
    else SubsUpTo(num, sub, ms, k - 1) + EmitRecord(Record(num, Len(Serialize(sub, ms[k - 1]))))
  }

  lemma {:induction false} SubsUpToIsEmit(num: nat, sub: Schema, ms: seq<Msg>, k: nat)
    requires ValidVal(Repeated(num, sub), Subs(ms)) && k <= |ms|
    ensures SubsUpTo(num, sub, ms, k) == Emit(SlotRecords(Repeated(num, sub), Subs(ms))[..k])
  {
    hide Serialize, EmitRecord, EncodeVarint;
    var rs := SlotRecords(Repeated(num, sub), Subs(ms));
    if k == 0 {
      assert rs[..0] == [];
    } else {
      SubsUpToIsEmit(num, sub, ms, k - 1);
      EmitNext(rs, k - 1);
    }
  }

  lemma {:induction false} SubsUpToAll(num: nat, sub: Schema, ms: seq<Msg>)
    requires ValidVal(Repeated(num, sub), Subs(ms))
    ensures SubsUpTo(num, sub, ms, |ms|) == SlotBytes(Repeated(num, sub), Subs(ms))
  {
    var rs := SlotRecords(Repeated(num, sub), Subs(ms));
    SubsUpToIsEmit(num, sub, ms, |ms|);
    assert rs[..|ms|] == rs;
  }

  lemma {:induction false} SubsWriteNext(
    num: nat, sub: Schema, ms: seq<Msg>, k: nat, target: bytes, out: bytes, out': bytes
  )
    requires ValidVal(Repeated(num, sub), Subs(ms)) && k < |ms| && Valid(sub, ms[k])
    requires out == target + SubsUpTo(num, sub, ms, k)
    requires out' == out + EmitRecord(Record(num, Len(Serialize(sub, ms[k]))))
    ensures out' == target + SubsUpTo(num, sub, ms, k + 1)
  {
    Assoc(target, SubsUpTo(num, sub, ms, k), EmitRecord(Record(num, Len(Serialize(sub, ms[k])))));
  }

  function PutSub(m: Msg, i: nat, x: Msg): Msg
    requires i < |m.vals| && m.vals[i].Subs?
  {
    Put(m, i, Subs(m.vals[i].ms + [x]))
  }

  lemma PutSubValid(sc: Schema, m: Msg, i: nat, x: Msg)
    requires Valid(sc, m) && i < |sc.slots| && sc.slots[i].Repeated? && Valid(sc.slots[i].sub, x)
    requires m.vals[i].Subs?
    ensures Valid(sc, PutSub(m, i, x))
  {}

  /** A repeated submessage record parses its payload into a fresh element, with outcome `ok` and `x`. */
  lemma SubTurn(sc: Schema, m: Msg, s: bytes, ptr: nat, num: nat, payload: bytes, next: nat, i: nat, ok: bool, x: Msg)
    requires SchemaOk(sc) && Valid(sc, m) && RecordRead(s, ptr, Record(num, Len(payload)), next)
    requires i < |sc.slots| && sc.slots[i].Repeated? && sc.slots[i].num == num && m.vals[i].Subs?
    requires Parsed(sc.slots[i].sub, Default(sc.slots[i].sub), payload, ok, x)
    ensures if ok then Continues(sc, s, m, ptr, PutSub(m, i, x), next) else Fails(sc, s, m, ptr, PutSub(m, i, x))
  {
    hide Continues, Fails, Parse, AfterFailure;
    PutSubValid(sc, m, i, x);
    FieldTurn(sc, m, s, ptr, Record(num, Len(payload)), next, i);
  }

  /** A oneof or singular submessage record parses its payload into the current or a fresh submessage. */
  lemma ChoiceTurn(
    sc: Schema, m: Msg, s: bytes, ptr: nat, num: nat, payload: bytes, next: nat, i: nat, j: nat, ok: bool,
    x: Msg
  )
    requires SchemaOk(sc) && Valid(sc, m) && RecordRead(s, ptr, Record(num, Len(payload)), next)
    requires i < |sc.slots| && sc.slots[i].Choice? && j < |sc.slots[i].cases| && sc.slots[i].cases[j].num == num
    requires ValidVal(sc.slots[i], m.vals[i])
    requires Parsed(sc.slots[i].cases[j].sub, CaseBase(sc.slots[i].cases, m.vals[i], j), payload, ok, x)
    ensures if ok then Continues(sc, s, m, ptr, Put(m, i, Chosen(j, x)), next)
            else Fails(sc, s, m, ptr, Put(m, i, Chosen(j, x)))
  {
    hide Continues, Fails, Parse, AfterFailure;
    assert SlotOk(sc.slots[i]);
    CaseOfNumber(sc.slots[i].cases, j);
    PutValid(sc, m, i, Chosen(j, x));
    FieldTurn(sc, m, s, ptr, Record(num, Len(payload)), next, i);
  }

  /** The length of a submessage record is refused after the element was added. */
  lemma BrokenSub(sc: Schema, m: Msg, s: bytes, ptr: nat, tag: nat, p: nat, i: nat)
    requires SchemaOk(sc) && Valid(sc, m) && TagRead(s, ptr, tag, p) && ReadRecord(s[ptr..]).None?
    requires i < |sc.slots| && sc.slots[i].Repeated? && tag == 8 * sc.slots[i].num + 2 && sc.slots[i].num != 0
    ensures m.vals[i].Subs? && Fails(sc, s, m, ptr, PutSub(m, i, Default(sc.slots[i].sub)))
  {
    hide Fails;
    BrokenField(sc, m, s, ptr, tag, p, i);
  }

  /** The same for a oneof or singular submessage, after it was created. */
  lemma BrokenChoice(sc: Schema, m: Msg, s: bytes, ptr: nat, tag: nat, p: nat, i: nat, j: nat)
    requires SchemaOk(sc) && Valid(sc, m) && TagRead(s, ptr, tag, p) && ReadRecord(s[ptr..]).None?
    requires i < |sc.slots| && sc.slots[i].Choice? && j < |sc.slots[i].cases|
    requires tag == 8 * sc.slots[i].cases[j].num + 2 && sc.slots[i].cases[j].num != 0
    ensures ValidVal(sc.slots[i], m.vals[i])
    ensures Fails(sc, s, m, ptr, Put(m, i, Chosen(j, CaseBase(sc.slots[i].cases, m.vals[i], j))))
  {
    hide Fails;
    assert SlotOk(sc.slots[i]);
    CaseOfNumber(sc.slots[i].cases, j);
    BrokenField(sc, m, s, ptr, tag, p, i);
  }

  /** A one-byte tag is expected by looking at that byte alone. */
  lemma ExpectTag(s: bytes, ptr: nat)
    requires ptr < |s| && s[ptr] < 128
    ensures TagRead(s, ptr, s[ptr], ptr + 1)
  {}
}
