// The schema-driven reference codec: what parsing, serializing and merging a
// generated message mean, as pure functions over a schema.
//
// A slot is one place of storage in a generated message: a singular scalar, a
// string, a repeated uint64, a repeated submessage, or a oneof. A singular
// submessage field is a oneof with one case. Every generated message of
// Struct.proto and Protocol.proto is built from these slots.
module Codec {
  import opened Bytes
  import opened Varints
  import opened Wire
  import opened Utf8

  // An enum is encoded like an int32; a float is its 32 raw bits.
  datatype NumberType = UInt64 | UInt32 | Int32 | Enum | Float32

  datatype Slot =
    | Number(num: nat, ty: NumberType)
    | Text(num: nat)
    | Packed(num: nat)
    | Repeated(num: nat, sub: Schema)
    | Choice(cases: seq<Case>)

  datatype Case = Case(num: nat, sub: Schema)

  datatype Schema = Schema(slots: seq<Slot>)

  // Slot i of a message holds vals[i]. Unset and Chosen are the values of a Choice.
  datatype Val =
    | Num(n: int)
    | Str(s: bytes)
    | Nums(ns: seq<nat>)
    | Subs(ms: seq<Msg>)
    | Unset
    | Chosen(i: nat, m: Msg)

  datatype Msg = Msg(vals: seq<Val>, unknown: seq<Record>)

  // ---- Schemas ---------------------------------------------------------------

  function Low(slot: Slot): nat {
    if slot.Choice? then (if slot.cases == [] then 1 else slot.cases[0].num) else slot.num
  }

  function High(slot: Slot): nat {
    if slot.Choice? then (if slot.cases == [] then 1 else slot.cases[|slot.cases| - 1].num) else slot.num
  }

  /** Field numbers are legal and ascend, from slot to slot and inside a oneof, at every level. */
  predicate SchemaOk(sc: Schema) {
    && (forall i :: 0 <= i < |sc.slots| ==> SlotOk(sc.slots[i]))
    && (forall i, j :: 0 <= i < j < |sc.slots| ==> High(sc.slots[i]) < Low(sc.slots[j]))
  }

  predicate SlotOk(slot: Slot) {
    && 1 <= Low(slot) <= High(slot) <= MAX_FIELD
    && match slot
       case Repeated(_, sub) => SchemaOk(sub)
       case Choice(cases) =>
         && cases != []
         && (forall i :: 0 <= i < |cases| ==> SchemaOk(cases[i].sub))
         && (forall i, j :: 0 <= i < j < |cases| ==> cases[i].num < cases[j].num)
       case _ => true
  }

  /** The case of a oneof with the given field number, or |cases|. */
  function CaseOf(cases: seq<Case>, num: nat): (r: nat)
    ensures r <= |cases|
    ensures r < |cases| ==> cases[r].num == num
  {
    if cases == [] then 0
    else if cases[0].num == num then 0
    else 1 + CaseOf(cases[1..], num)
  }

  function NumberWire(ty: NumberType): nat {
    if ty == Float32 then 5 else 0
  }

  /** The (field number, wire type) pairs the parse loop's switch routes to this slot. */
  predicate Accepts(slot: Slot, num: nat, wireType: nat) {
    match slot
    case Number(k, ty) => num == k && wireType == NumberWire(ty)
    case Text(k) => num == k && wireType == 2
    case Packed(k) => num == k && (wireType == 0 || wireType == 2)
    case Repeated(k, _) => num == k && wireType == 2
    case Choice(cases) => CaseOf(cases, num) < |cases| && wireType == 2
  }

  function FindBelow(slots: seq<Slot>, num: nat, wireType: nat, k: nat): (r: Option<nat>)
    requires k <= |slots|
    ensures r.Some? ==> r.value < k && Accepts(slots[r.value], num, wireType)
    ensures r.None? ==> forall i :: 0 <= i < k ==> !Accepts(slots[i], num, wireType)
  {
    if k == 0 then None
    else if Accepts(slots[k - 1], num, wireType) then Some(k - 1)
    else FindBelow(slots, num, wireType, k - 1)
  }

  /** The slot a record goes to; None sends it to the unknown fields. */
  function Find(sc: Schema, r: Record): (i: Option<nat>)
    ensures i.Some? ==> i.value < |sc.slots|
  {
    FindBelow(sc.slots, r.num, WireType(r.body), |sc.slots|)
  }

  // ---- Scalars -----------------------------------------------------------------

  function ToSigned32(v: nat): int
    requires v < TWO_32
  {
    if v < 0x8000_0000 then v else v - TWO_32
  }

  /** Stored in 32 bits, written in 64. */
  predicate Signed(ty: NumberType) {
    ty == Int32 || ty == Enum
  }

  predicate InRange(ty: NumberType, n: int) {
    match ty
    case UInt64 => 0 <= n < TWO_64
    case UInt32 => 0 <= n < TWO_32
    case Int32 => -0x8000_0000 <= n < 0x8000_0000
    case Enum => -0x8000_0000 <= n < 0x8000_0000
    case Float32 => 0 <= n < TWO_32
  }

  /** The bits written for a scalar: an int32 or enum is sign-extended to 64 bits first. */
  function EncodeNumber(ty: NumberType, n: int): (p: Payload)
    requires InRange(ty, n)
    ensures PayloadOk(p) && WireType(p) == NumberWire(ty)
  {
    match ty
    case Float32 => Fixed32(n)
    case UInt64 => Varint(n)
    case UInt32 => Varint(n)
    case _ => Varint(if n < 0 then n + TWO_64 else n)
  }

  /** What the parse loop stores: 32-bit fields keep the low 32 bits. */
  function DecodeNumber(ty: NumberType, p: Payload): (n: int)
    requires PayloadOk(p) && WireType(p) == NumberWire(ty)
    ensures InRange(ty, n)
  {
    match ty
    case UInt64 => p.v
    case UInt32 => p.v % 0x1_0000_0000
    case Float32 => p.v
    case _ => ToSigned32(p.v % 0x1_0000_0000)
  }

  lemma NumberRoundTrip(ty: NumberType, n: int)
    requires InRange(ty, n)
    ensures DecodeNumber(ty, EncodeNumber(ty, n)) == n
  {}

  /** What is written is the number itself modulo 2^64, and what is read the number modulo 2^32 or 2^64. */
  lemma NumberBits(ty: NumberType, n: int, v: nat)
    requires InRange(ty, n) && v < 0x1_0000_0000_0000_0000
    ensures ty == Float32 ==> EncodeNumber(ty, n) == Fixed32(n) && 0 <= n < 0x1_0000_0000
    ensures ty != Float32 ==>
              var p := EncodeNumber(ty, n);
              p.Varint? && p.v < 0x1_0000_0000_0000_0000 && (p.v - n) % 0x1_0000_0000_0000_0000 == 0
    ensures ty == UInt64 ==> DecodeNumber(ty, Varint(v)) == v
    ensures ty == UInt32 ==>
              var d := DecodeNumber(ty, Varint(v)); 0 <= d < 0x1_0000_0000 && (d - v) % 0x1_0000_0000 == 0
    ensures ty == Int32 || ty == Enum ==>
              var d := DecodeNumber(ty, Varint(v)); -0x8000_0000 <= d < 0x8000_0000 && (d - v) % 0x1_0000_0000 == 0
  {}

  /** Packed values follow each other in their order. */
  lemma {:induction false} PackedInOrder(xs: seq<nat>, ys: seq<nat>, v: nat)
    ensures EncodePacked(xs + ys) == EncodePacked(xs) + EncodePacked(ys) && EncodePacked([v]) == EncodeVarint(v)
  {
    assert [v][1..] == [] && EncodeVarint(v) + [] == EncodeVarint(v);
    if xs == [] {
      assert xs + ys == ys;
    } else {
      assert (xs + ys)[1..] == xs[1..] + ys;
      PackedInOrder(xs[1..], ys, v);
    }
  }

  /** And that is how any spelling of them is read. */
  lemma {:induction false} PackedReadInOrder(s: bytes, n: nat)
    requires Spelled(s, n)
    ensures DecodePacked(s) ==
            if n > 10 || DecodePacked(s[n..]).None? then None
            else Some([Groups(s[..n]) % 0x1_0000_0000_0000_0000] + DecodePacked(s[n..]).value)
  {
    hide Groups, DecodeVarint;
    ReadVarintIff(s, Groups(s[..n]) % 0x1_0000_0000_0000_0000, n);
    if ReadVarint(s, 10, true).Some? {
      ReadVarintIff(s, ReadVarint(s, 10, true).value.0, ReadVarint(s, 10, true).value.1);
    }
  }

  function EncodePacked(ns: seq<nat>): bytes {
    if ns == [] then [] else EncodeVarint(ns[0]) + EncodePacked(ns[1..])
  }

  function DecodePacked(s: bytes): (r: Option<seq<nat>>)
    ensures r.Some? ==> forall i :: 0 <= i < |r.value| ==> r.value[i] < TWO_64
  {
    if s == [] then Some([])
    else
      match ReadVarint(s, 10, true)
      case None => None
      case Some((v, n)) =>
        match DecodePacked(s[n..])
        case None => None
        case Some(rest) => Some([v] + rest)
  }

  // ---- Well-formed messages -------------------------------------------------------

  /** The message has the schema's shape, its numbers are in range and its unknown fields are unknown. */
  predicate Valid(sc: Schema, m: Msg) {
    && |m.vals| == |sc.slots|
    && (forall i :: 0 <= i < |sc.slots| ==> ValidVal(sc.slots[i], m.vals[i]))
    && RecordsOk(m.unknown)
    && (forall i :: 0 <= i < |m.unknown| ==> Find(sc, m.unknown[i]).None?)
  }

  predicate ValidVal(slot: Slot, v: Val) {
    match slot
    case Number(_, ty) => v.Num? && InRange(ty, v.n)
    case Text(_) => v.Str?
    case Packed(_) => v.Nums? && forall i :: 0 <= i < |v.ns| ==> v.ns[i] < TWO_64
    case Repeated(_, sub) => v.Subs? && forall i :: 0 <= i < |v.ms| ==> Valid(sub, v.ms[i])
    case Choice(cases) => v.Unset? || (v.Chosen? && v.i < |cases| && Valid(cases[v.i].sub, v.m))
  }

  function DefaultVal(slot: Slot): (v: Val)
    ensures ValidVal(slot, v)
  {
    match slot
    case Number(_, _) => Num(0)
    case Text(_) => Str([])
    case Packed(_) => Nums([])
    case Repeated(_, _) => Subs([])
    case Choice(_) => Unset
  }

  function Default(sc: Schema): (m: Msg)
    ensures Valid(sc, m)
  {
    Msg(seq(|sc.slots|, i requires 0 <= i < |sc.slots| => DefaultVal(sc.slots[i])), [])
  }

  // ---- Serializing -----------------------------------------------------------------

  /** The records of one slot: nothing for a default value. */
  function SlotRecords(slot: Slot, v: Val): seq<Record>
    requires ValidVal(slot, v)
    decreases slot, 2
  {
    match slot
    case Number(num, ty) => if v.n == 0 then [] else [Record(num, EncodeNumber(ty, v.n))]
    case Text(num) => if v.s == [] then [] else [Record(num, Len(v.s))]
    case Packed(num) => if v.ns == [] then [] else [Record(num, Len(EncodePacked(v.ns)))]
    case Repeated(num, sub) =>
      seq(|v.ms|, i requires 0 <= i < |v.ms| => Record(num, Len(Serialize(sub, v.ms[i]))))
    case Choice(cases) => if v.Unset? then [] else [Record(cases[v.i].num, Len(Serialize(cases[v.i].sub, v.m)))]
  }

  /** The records of the first k slots, by ascending field number. */
  function KnownUpTo(sc: Schema, m: Msg, k: nat): seq<Record>
    requires Valid(sc, m) && k <= |sc.slots|
    decreases sc, 3, k
  {
    if k == 0 then [] else KnownUpTo(sc, m, k - 1) + SlotRecords(sc.slots[k - 1], m.vals[k - 1])
  }

  function Records(sc: Schema, m: Msg): seq<Record>
    requires Valid(sc, m)
    decreases sc, 4
  {
    KnownUpTo(sc, m, |sc.slots|) + m.unknown
  }

  function Serialize(sc: Schema, m: Msg): bytes
    requires Valid(sc, m)
    decreases sc, 5
  {
    Emit(Records(sc, m))
  }

  // ---- Parsing -----------------------------------------------------------------------

  /** One switch case of the parse loop: the slot's new value, or None for a failed parse. */
  function SlotStep(slot: Slot, v: Val, r: Record): (r': Option<Val>)
    requires ValidVal(slot, v) && RecordOk(r) && Accepts(slot, r.num, WireType(r.body))
    ensures r'.Some? ==> ValidVal(slot, r'.value)
    decreases slot, 2, 0
  {
    match slot
    case Number(_, ty) => Some(Num(DecodeNumber(ty, r.body)))
    case Text(_) => if ValidUtf8(r.body.s) then Some(Str(r.body.s)) else None
    case Packed(_) =>
      if r.body.Varint? then Some(Nums(v.ns + [r.body.v]))
      else
        (match DecodePacked(r.body.s)
         case None => None
         case Some(ns) => Some(Nums(v.ns + ns)))
    case Repeated(_, sub) =>
      (match Parse(sub, Default(sub), r.body.s)
       case None => None
       case Some(m) => Some(Subs(v.ms + [m])))
    case Choice(cases) =>
      var j := CaseOf(cases, r.num);
      match Parse(cases[j].sub, CaseBase(cases, v, j), r.body.s)
      case None => None
      case Some(m) => Some(Chosen(j, m))
  }

  /** The submessage a oneof field parses or merges into: the current one if the case matches, else a fresh one. */
  function CaseBase(cases: seq<Case>, v: Val, j: nat): (m: Msg)
    requires ValidVal(Choice(cases), v) && j < |cases|
    ensures Valid(cases[j].sub, m)
  {
    if v.Chosen? && v.i == j then v.m else Default(cases[j].sub)
  }

  function Put(m: Msg, i: nat, v: Val): Msg
    requires i < |m.vals|
  {
    m.(vals := m.vals[i := v])
  }

  /** One turn of the parse loop. */
  function Apply(sc: Schema, m: Msg, r: Record): (r': Option<Msg>)
    requires Valid(sc, m) && RecordOk(r)
    ensures r'.Some? ==> Valid(sc, r'.value)
    decreases sc, 3, 0
  {
    match Find(sc, r)
    case None => Some(m.(unknown := m.unknown + [r]))
    case Some(i) =>
      match SlotStep(sc.slots[i], m.vals[i], r)
      case None => None
      case Some(v) => Some(m.(vals := m.vals[i := v]))
  }

  function ApplyAll(sc: Schema, m: Msg, rs: seq<Record>): (r': Option<Msg>)
    requires Valid(sc, m) && RecordsOk(rs)
    ensures r'.Some? ==> Valid(sc, r'.value)
    decreases sc, 4, |rs|
  {
    if rs == [] then Some(m)
    else
      match Apply(sc, m, rs[0])
      case None => None
      case Some(m') => ApplyAll(sc, m', rs[1..])
  }

  /** Parsing `s` into `m`: the merged message, or None when the parse fails. */
  function Parse(sc: Schema, m: Msg, s: bytes): (r': Option<Msg>)
    requires Valid(sc, m)
    ensures r'.Some? ==> Valid(sc, r'.value)
    decreases sc, 5, 0
  {
    match Tokenise(s)
    case None => None
    case Some(rs) =>
      TokensOk(s);
      ApplyAll(sc, m, rs)
  }

  // ---- Merging ---------------------------------------------------------------------------

  function MergeVal(slot: Slot, a: Val, b: Val): (v: Val)
    requires ValidVal(slot, a) && ValidVal(slot, b)
    ensures ValidVal(slot, v)
    decreases slot, 2
  {
    match slot
    case Number(_, _) => if b.n != 0 then b else a
    case Text(_) => if b.s != [] then b else a
    case Packed(_) => Nums(a.ns + b.ns)
    case Repeated(_, _) => Subs(a.ms + b.ms)
    case Choice(cases) =>
      if b.Unset? then a
      else Chosen(b.i, Merge(cases[b.i].sub, CaseBase(cases, a, b.i), b.m))
  }

  function Merge(sc: Schema, a: Msg, b: Msg): (m: Msg)
    requires Valid(sc, a) && Valid(sc, b)
    ensures Valid(sc, m)
    decreases sc, 3
  {
    Msg(seq(|sc.slots|, i requires 0 <= i < |sc.slots| => MergeVal(sc.slots[i], a.vals[i], b.vals[i])),
        a.unknown + b.unknown)
  }

  // ---- What a receiver accepts --------------------------------------------------------------

  /** Every string of the message is UTF-8. */
  predicate TextOk(sc: Schema, m: Msg)
    requires Valid(sc, m)
  {
    forall i :: 0 <= i < |sc.slots| ==> TextOkVal(sc.slots[i], m.vals[i])
  }

  predicate TextOkVal(slot: Slot, v: Val)
    requires ValidVal(slot, v)
  {
    match slot
    case Text(_) => ValidUtf8(v.s)
    case Repeated(_, sub) => forall i :: 0 <= i < |v.ms| ==> TextOk(sub, v.ms[i])
    case Choice(cases) => v.Chosen? ==> TextOk(cases[v.i].sub, v.m)
    case _ => true
  }

  /**
   * Every length-delimited value, at every level, is at most `limit` bytes long. With MAX_LEN its length is
   * read back.
   */
  predicate Fits(sc: Schema, m: Msg, limit: nat)
    requires Valid(sc, m)
  {
    forall i :: 0 <= i < |sc.slots| ==> FitsVal(sc.slots[i], m.vals[i], limit)
  }

  predicate FitsVal(slot: Slot, v: Val, limit: nat)
    requires ValidVal(slot, v)
  {
    match slot
    case Text(_) => |v.s| <= limit
    case Packed(_) => |EncodePacked(v.ns)| <= limit
    case Repeated(_, sub) => forall i :: 0 <= i < |v.ms| ==>
          Fits(sub, v.ms[i], limit) && |Serialize(sub, v.ms[i])| <= limit
    case Choice(cases) => v.Chosen? ==> Fits(cases[v.i].sub, v.m, limit) && |Serialize(cases[v.i].sub, v.m)| <= limit
    case _ => true
  }
}
