// Beyond the length limits: the laws of the codec for every message, of any size.
// A part longer than the length reader accepts makes the receiver's parse fail.
module LengthLimits {
  import opened Bytes
  import opened Varints
  import opened Wire
  import opened Codec
  import opened Projection
  import opened RoundTrip
  import opened Histories
  import opened Sizes

  // ---- Records that are written but not read back ------------------------------------

  /** A legal record but for the length of its payload. */
  predicate Writable(r: Record) {
    1 <= r.num <= MAX_FIELD && (r.body.Len? || PayloadOk(r.body))
  }

  predicate AllWritable(rs: seq<Record>) {
    forall i :: 0 <= i < |rs| ==> Writable(rs[i])
  }

  lemma {:induction false} DecodeTooLong(v: nat, room: nat, rest: bytes)
    requires v >= Pow128(room)
    ensures DecodeVarint(EncodeVarint(v) + rest, room).None?
  {
    var s := EncodeVarint(v) + rest;
    if room > 0 {
      assert v >= 128;
      assert s[1..] == EncodeVarint(v / 128) + rest;
      DecodeTooLong(v / 128, room - 1, rest);
    }
  }

  /** A length above the limit is refused, however many bytes it takes. */
  lemma LongLengthRefused(size: nat, rest: bytes)
    requires size > MAX_LEN
    ensures ReadSize(EncodeVarint(size) + rest).None?
  {
    hide EncodeVarint, DecodeVarint;
    if size < Pow128(5) { DecodeEncode(size, 5, rest); } else { DecodeTooLong(size, 5, rest); }
  }

  lemma LongRecordRefused(r: Record, rest: bytes)
    requires Writable(r) && !RecordOk(r)
    ensures ReadRecord(EmitRecord(r) + rest).None?
  {
    hide ReadTag, ReadSize, EncodeVarint;
    var tag, body := Tag(r.num, 2), EncodeVarint(|r.body.s|) + r.body.s;
    assert EmitRecord(r) + rest == EncodeVarint(tag) + (body + rest);
    ReadTagEmitted(tag, body + rest);
    assert (EmitRecord(r) + rest)[|EncodeVarint(tag)|..] == EncodeVarint(|r.body.s|) + (r.body.s + rest);
    LongLengthRefused(|r.body.s|, r.body.s + rest);
  }

  /** Written records are read back only if every one of them is within the limit. */
  lemma {:induction false} OnlyShortRecordsRead(rs: seq<Record>)
    requires AllWritable(rs) && Tokenise(Emit(rs)).Some?
    ensures RecordsOk(rs)
  {
    hide ReadRecord, EncodeVarint, EmitBody;
    if rs != [] {
      var rest := Emit(rs[1..]);
      assert Emit(rs) == EmitRecord(rs[0]) + rest && Emit(rs) != [];
      if !RecordOk(rs[0]) { LongRecordRefused(rs[0], rest); }
      ReadRecordEmitted(rs[0], rest);
      assert (EmitRecord(rs[0]) + rest)[|EmitRecord(rs[0])|..] == rest;
      OnlyShortRecordsRead(rs[1..]);
    }
  }

  // ---- Messages --------------------------------------------------------------------------

  lemma SlotWritable(slot: Slot, v: Val)
    requires SlotOk(slot) && ValidVal(slot, v)
    ensures AllWritable(SlotRecords(slot, v))
    ensures RecordsOk(SlotRecords(slot, v)) ==> FitsVal(slot, v, MAX_LEN)
  {
    hide Serialize, Fits;
    var rs := SlotRecords(slot, v);
    match slot
    case Repeated(_, sub) =>
      if RecordsOk(rs) {
        forall i | 0 <= i < |v.ms| ensures Fits(sub, v.ms[i], MAX_LEN) && |Serialize(sub, v.ms[i])| <= MAX_LEN {
          assert RecordOk(rs[i]);
          SmallFits(sub, v.ms[i], MAX_LEN);
        }
      }
    case Choice(cases) =>
      if v.Chosen? {
        assert Low(slot) <= cases[v.i].num <= High(slot);
        if RecordsOk(rs) {
          assert RecordOk(rs[0]);
          SmallFits(cases[v.i].sub, v.m, MAX_LEN);
        }
      }
    case Packed(_) => if v.ns != [] && RecordsOk(rs) { assert RecordOk(rs[0]); }
    case Text(_) => if v.s != [] && RecordsOk(rs) { assert RecordOk(rs[0]); }
    case Number(_, _) =>
  }

  lemma {:induction false} KnownWritable(sc: Schema, m: Msg, k: nat)
    requires SchemaOk(sc) && Valid(sc, m) && k <= |sc.slots|
    ensures AllWritable(KnownUpTo(sc, m, k))
    ensures RecordsOk(KnownUpTo(sc, m, k)) ==> forall i :: 0 <= i < k ==> FitsVal(sc.slots[i], m.vals[i], MAX_LEN)
  {
    hide SlotRecords, FitsVal, SlotOk, ValidVal, Writable, RecordOk;
    if k > 0 {
      KnownWritable(sc, m, k - 1);
      SlotWritable(sc.slots[k - 1], m.vals[k - 1]);
      PartsOk(KnownUpTo(sc, m, k - 1), SlotRecords(sc.slots[k - 1], m.vals[k - 1]));
    }
  }

  lemma PartsOk(xs: seq<Record>, ys: seq<Record>)
    ensures AllWritable(xs) && AllWritable(ys) ==> AllWritable(xs + ys)
    ensures RecordsOk(xs + ys) ==> RecordsOk(xs) && RecordsOk(ys)
  {
    hide Writable, RecordOk;
    if RecordsOk(xs + ys) {
      forall i | 0 <= i < |xs| ensures RecordOk(xs[i]) { assert xs[i] == (xs + ys)[i]; }
      forall i | 0 <= i < |ys| ensures RecordOk(ys[i]) { assert ys[i] == (xs + ys)[|xs| + i]; }
    }
  }

  /** A message that can be read back is within the limits, at every level. */
  lemma {:induction false} OnlyFittingRead(sc: Schema, m: Msg)
    requires SchemaOk(sc) && Valid(sc, m) && Tokenise(Serialize(sc, m)).Some?
    ensures Fits(sc, m, MAX_LEN)
  {
    hide SlotRecords, FitsVal, Emit, Tokenise, SchemaOk;
    KnownWritable(sc, m, |sc.slots|);
    PartsOk(KnownUpTo(sc, m, |sc.slots|), m.unknown);
    OnlyShortRecordsRead(Records(sc, m));
  }

  /**
   * Parse is merge, for every message: the bytes of `b` parse to the merge exactly when its strings are
   * UTF-8 and its parts are within the limits, and fail to parse otherwise.
   */
  lemma {:induction false} ParseSerializedAlways(sc: Schema, a: Msg, b: Msg)
    requires SchemaOk(sc) && Valid(sc, a) && Valid(sc, b)
    ensures Parse(sc, a, Serialize(sc, b)) ==
            if Fits(sc, b, MAX_LEN) && TextOk(sc, b) then Some(Merge(sc, a, b)) else None
  {
    hide Serialize, Fits, TextOk, Merge, SchemaOk, Valid;
    if Fits(sc, b, MAX_LEN) {
      ParseSerialized(sc, a, b);
    } else if Tokenise(Serialize(sc, b)).Some? {
      OnlyFittingRead(sc, b);
    }
  }

  /** The round trip of every message. */
  lemma {:induction false} RoundTripIff(sc: Schema, m: Msg)
    requires SchemaOk(sc) && Valid(sc, m)
    ensures Parse(sc, Default(sc), Serialize(sc, m)) == if Fits(sc, m, MAX_LEN) && TextOk(sc, m) then Some(m) else None
  {
    hide Serialize, Parse, Fits, TextOk;
    ParseSerializedAlways(sc, Default(sc), m);
    MergeIntoDefault(sc, m);
  }

  /**
   * Writing back what was parsed, for input of any length: the unmatched records follow the known fields
   * in wire order, and the result parses to the same message exactly when its parts are within the limits.
   */
  lemma {:induction false} ReserializeIff(sc: Schema, s: bytes)
    requires SchemaOk(sc) && Parse(sc, Default(sc), s).Some?
    ensures var m := Parse(sc, Default(sc), s).value;
            && m.unknown == Select(sc, Tokenise(s).value, None)
            && Serialize(sc, m) == Emit(KnownUpTo(sc, m, |sc.slots|)) + Emit(Select(sc, Tokenise(s).value, None))
            && Parse(sc, Default(sc), Serialize(sc, m)) == if Fits(sc, m, MAX_LEN) then Some(m) else None
  {
    hide Fits, TextOk, SchemaOk, Emit;
    var m := Parse(sc, Default(sc), s).value;
    UnknownInOrder(sc, s);
    DefaultTextOk(sc);
    ParseKeepsTextOk(sc, Default(sc), s);
    RoundTripIff(sc, m);
  }
}
