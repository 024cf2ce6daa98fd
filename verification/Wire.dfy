// The record layer of the wire format: tagged records, their canonical bytes,
// and the reader that splits an arbitrary byte sequence into records.
module Wire {
  import opened Bytes
  import opened Varints

  datatype Payload = Varint(v: nat) | Fixed64(v: nat) | Len(s: bytes) | Fixed32(v: nat)

  datatype Record = Record(num: nat, body: Payload)

  const MAX_FIELD: nat := 0x1FFF_FFFF

  function WireType(p: Payload): (r: nat)
    ensures r <= 5
  {
    match p
    case Varint(_) => 0
    case Fixed64(_) => 1
    case Len(_) => 2
    case Fixed32(_) => 5
  }

  predicate PayloadOk(p: Payload) {
    match p
    case Varint(v) => v < TWO_64
    case Fixed64(v) => v < TWO_64
    case Len(s) => |s| <= MAX_LEN
    case Fixed32(v) => v < TWO_32
  }

  predicate RecordOk(r: Record) {
    1 <= r.num <= MAX_FIELD && PayloadOk(r.body)
  }

  predicate RecordsOk(rs: seq<Record>) {
    forall i :: 0 <= i < |rs| ==> RecordOk(rs[i])
  }

  // ---- Fixed-width little-endian values ----------------------------------

  function Pow256(k: nat): (r: nat)
    ensures r >= 1
  {
    if k == 0 then 1 else 256 * Pow256(k - 1)
  }

  function LittleEndian(v: nat, k: nat): (r: bytes)
    ensures |r| == k
  {
    if k == 0 then [] else [v % 256] + LittleEndian(v / 256, k - 1)
  }

  function FromLittleEndian(s: bytes): nat {
    if s == [] then 0 else s[0] + 256 * FromLittleEndian(s[1..])
  }

  lemma {:induction false} LittleEndianRoundTrip(v: nat, k: nat)
    requires v < Pow256(k)
    ensures FromLittleEndian(LittleEndian(v, k)) == v
  {
    if k > 0 {
      LittleEndianRoundTrip(v / 256, k - 1);
      assert LittleEndian(v, k)[1..] == LittleEndian(v / 256, k - 1);
    }
  }

  lemma {:induction false} LittleEndianBound(s: bytes)
    ensures FromLittleEndian(s) < Pow256(|s|)
  {
    if s != [] {
      LittleEndianBound(s[1..]);
    }
  }

  /** The low byte comes first: byte `i` holds the bits from 8 i on. */
  lemma {:induction false} LittleEndianByte(v: nat, k: nat, i: nat)
    requires i < k
    ensures LittleEndian(v, k)[i] == v / Pow256(i) % 256
  {
    if i > 0 {
      LittleEndianByte(v / 256, k - 1, i - 1);
      DivideTwice(v, 256, Pow256(i - 1));
    }
  }

  /** Four bytes as a number, the low one first. */
  function Word(a: nat, b: nat, c: nat, d: nat): nat {
    a + 0x100 * b + 0x1_0000 * c + 0x100_0000 * d
  }

  lemma {:induction false} ReadFour(s: bytes)
    requires |s| >= 4
    ensures FromLittleEndian(s) == Word(s[0], s[1], s[2], s[3]) + 0x1_0000_0000 * FromLittleEndian(s[4..])
  {
    assert s[1..][1..] == s[2..] && s[2..][1..] == s[3..] && s[3..][1..] == s[4..];
    assert FromLittleEndian(s[3..]) == s[3] + 256 * FromLittleEndian(s[4..]);
    assert FromLittleEndian(s[2..]) == s[2] + 256 * FromLittleEndian(s[3..]);
    assert FromLittleEndian(s[1..]) == s[1] + 256 * FromLittleEndian(s[2..]);
  }

  /** And that is how four bytes are read. */
  lemma {:induction false} ReadLittleEndian(a: byte, b: byte, c: byte, d: byte)
    ensures FromLittleEndian([a, b, c, d]) == Word(a, b, c, d)
  {
    ReadFour([a, b, c, d]);
    assert [a, b, c, d][4..] == [] && FromLittleEndian([]) == 0;
  }

  lemma {:induction false} ReadLittleEndian8(s: bytes)
    requires |s| == 8
    ensures FromLittleEndian(s) ==
            Word(s[0], s[1], s[2], s[3]) + 0x1_0000_0000 * Word(s[4], s[5], s[6], s[7])
  {
    ReadFour(s);
    assert s[4..] == [s[4], s[5], s[6], s[7]];
    ReadLittleEndian(s[4], s[5], s[6], s[7]);
  }

  lemma FixedWidths()
    ensures Pow256(4) == TWO_32 && Pow256(8) == TWO_64
  {
    assert Pow256(2) == 0x1_0000;
    assert Pow256(5) == 256 * Pow256(4);
    assert Pow256(6) == 256 * Pow256(5);
    assert Pow256(7) == 256 * Pow256(6);
  }

  // ---- Writing -------------------------------------------------------------

  function Tag(num: nat, wireType: nat): nat {
    num * 8 + wireType
  }

  function EmitBody(p: Payload): bytes {
    match p
    case Varint(v) => EncodeVarint(v)
    case Fixed64(v) => LittleEndian(v, 8)
    case Len(s) => EncodeVarint(|s|) + s
    case Fixed32(v) => LittleEndian(v, 4)
  }

  function EmitRecord(r: Record): bytes {
    EncodeVarint(Tag(r.num, WireType(r.body))) + EmitBody(r.body)
  }

  function Emit(rs: seq<Record>): bytes {
    if rs == [] then [] else EmitRecord(rs[0]) + Emit(rs[1..])
  }

  // ---- Reading -------------------------------------------------------------

  /** A tag: at most five bytes, wrapped to 32 bits. */
  function ReadTag(s: bytes): (r: Option<(nat, nat)>) {
    ReadVarint(s, 5, false)
  }

  /** A length: at most five bytes and at most MAX_LEN. */
  function ReadSize(s: bytes): (r: Option<(nat, nat)>)
    ensures r.Some? ==> 1 <= r.value.1 <= |s| && r.value.0 <= MAX_LEN
  {
    match DecodeVarint(s, 5)
    case None => None
    case Some((v, n)) => if v <= MAX_LEN then Some((v, n)) else None
  }

  /**
   * The value after a tag, with the number of bytes it takes. Wire types 3 and 4 (groups) and the
   * unassigned 6 and 7 are refused.
   */
  function ReadBody(wireType: nat, s: bytes): (r: Option<(Payload, nat)>)
    ensures r.Some? ==> 1 <= r.value.1 <= |s|
    ensures r.Some? ==> WireType(r.value.0) == wireType
  {
    match wireType
    case 0 =>
      (match ReadVarint(s, 10, true)
       case None => None
       case Some((v, n)) => Some((Varint(v), n)))
    case 1 => if |s| < 8 then None else Some((Fixed64(FromLittleEndian(s[..8])), 8))
    case 2 =>
      (match ReadSize(s)
       case None => None
       case Some((v, n)) => if n + v <= |s| then Some((Len(s[n..n + v]), n + v)) else None)
    case 5 => if |s| < 4 then None else Some((Fixed32(FromLittleEndian(s[..4])), 4))
    case _ => None
  }

  function ReadRecord(s: bytes): (r: Option<(Record, nat)>)
    ensures r.Some? ==> 2 <= r.value.1 <= |s|
  {
    match ReadTag(s)
    case None => None
    case Some((tag, n)) =>
      if tag / 8 == 0 then None
      else
        match ReadBody(tag % 8, s[n..])
        case None => None
        case Some((p, k)) => Some((Record(tag / 8, p), n + k))
  }

  /** All records of `s`, or None when `s` is not exactly a sequence of records. */
  function Tokenise(s: bytes): Option<seq<Record>> {
    if s == [] then Some([])
    else
      match ReadRecord(s)
      case None => None
      case Some((r, n)) =>
        Prepend([r], Tokenise(s[n..]))
  }

  function Prepend(xs: seq<Record>, rest: Option<seq<Record>>): Option<seq<Record>> {
    match rest
    case None => None
    case Some(ys) => Some(xs + ys)
  }

  // ---- What is read, for every input -----------------------------------------

  /** A tag is a varint of at most five bytes, cut to 32 bits. */
  lemma ReadTagIff(s: bytes, tag: nat, n: nat)
    ensures ReadTag(s) == Some((tag, n)) <==> n <= 5 && Spelled(s, n) && tag == Groups(s[..n]) % 0x1_0000_0000
  {
    hide DecodeVarint, Groups;
    if ReadTag(s).Some? { DecodeIff(s, 5, DecodeVarint(s, 5).value.0, n); }
    DecodeIff(s, 5, Groups(s[..if n <= |s| then n else 0]), n);
  }

  /** The payload `p` in the first `k` bytes of `s`, as the wire type lays it out. */
  predicate BodyIs(wireType: nat, s: bytes, p: Payload, k: nat) {
    if wireType == 0 then k <= 10 && Spelled(s, k) && p == Varint(Groups(s[..k]) % 0x1_0000_0000_0000_0000)
    else if wireType == 1 then
      && |s| >= 8 && k == 8
      && p == Fixed64(Word(s[0], s[1], s[2], s[3]) + 0x1_0000_0000 * Word(s[4], s[5], s[6], s[7]))
    else if wireType == 2 then
      && p.Len? && |p.s| <= 2147483631 && |p.s| <= k <= |s|
      && var n := k - |p.s|; n <= 5 && Spelled(s, n) && Groups(s[..n]) == |p.s| && s[n..k] == p.s
    else if wireType == 5 then
      |s| >= 4 && k == 4 && p == Fixed32(Word(s[0], s[1], s[2], s[3]))
    else false
  }

  lemma {:induction false} ReadVarintIff(s: bytes, v: nat, n: nat)
    ensures ReadVarint(s, 10, true) == Some((v, n)) <==>
              n <= 10 && Spelled(s, n) && v == Groups(s[..n]) % 0x1_0000_0000_0000_0000
  {
    hide DecodeVarint, Groups;
    if ReadVarint(s, 10, true).Some? { DecodeIff(s, 10, DecodeVarint(s, 10).value.0, n); }
    DecodeIff(s, 10, Groups(s[..if n <= |s| then n else 0]), n);
  }

  lemma {:induction false} ReadLenIff(s: bytes, t: bytes, k: nat)
    ensures ReadBody(2, s) == Some((Len(t), k)) <==> BodyIs(2, s, Len(t), k)
  {
    hide DecodeVarint, Groups;
    if ReadBody(2, s) == Some((Len(t), k)) {
      var (v, n) := ReadSize(s).value;
      assert |s[n..n + v]| == v;
      DecodeIff(s, 5, v, n);
    }
    if BodyIs(2, s, Len(t), k) { DecodeIff(s, 5, |t|, k - |t|); }
  }

  lemma {:induction false} ReadBodyIff(wireType: nat, s: bytes, p: Payload, k: nat)
    ensures ReadBody(wireType, s) == Some((p, k)) <==> BodyIs(wireType, s, p, k)
  {
    hide DecodeVarint, Groups, FromLittleEndian;
    match wireType
    case 0 => ReadVarintIff(s, if p.Varint? then p.v else 0, k);
    case 1 => if |s| >= 8 { ReadLittleEndian8(s[..8]); }
    case 2 => if p.Len? { ReadLenIff(s, p.s, k); }
    case 5 =>
      if |s| >= 4 {
        assert s[..4] == [s[0], s[1], s[2], s[3]];
        ReadLittleEndian(s[0], s[1], s[2], s[3]);
      }
    case _ =>
  }

  /**
   * What is read as a record: a tag whose low three bits are the wire type and whose other bits are the
   * field number, which is not 0, and a payload laid out by the wire type.
   */
  lemma {:induction false} ReadRecordIff(s: bytes, r: Record, n: nat)
    ensures ReadRecord(s) == Some((r, n)) <==>
              exists k: nat ::
                && k <= 5 && k <= n && Spelled(s, k) && r.num > 0
                && var tag := Groups(s[..k]) % 0x1_0000_0000;
                   tag / 8 == r.num && BodyIs(tag % 8, s[k..], r.body, n - k)
  {
    hide DecodeVarint, Groups, ReadBody, BodyIs, ReadTag;
    if ReadRecord(s) == Some((r, n)) {
      var (tag, k) := ReadTag(s).value;
      ReadTagIff(s, tag, k);
      ReadBodyIff(tag % 8, s[k..], r.body, n - k);
    }
    if k: nat :|
      && k <= 5 && k <= n && Spelled(s, k) && r.num > 0
      && var tag := Groups(s[..k]) % 0x1_0000_0000;
         tag / 8 == r.num && BodyIs(tag % 8, s[k..], r.body, n - k)
    {
      var tag := Groups(s[..k]) % 0x1_0000_0000;
      ReadTagIff(s, tag, k);
      ReadBodyIff(tag % 8, s[k..], r.body, n - k);
    }
  }

  // ---- What the reader guarantees -------------------------------------------

  lemma ReadRecordOk(s: bytes)
    requires ReadRecord(s).Some?
    ensures RecordOk(ReadRecord(s).value.0)
  {
    var (tag, n) := ReadTag(s).value;
    var t := s[n..];
    FixedWidths();
    if tag % 8 == 1 { LittleEndianBound(t[..8]); }
    if tag % 8 == 5 { LittleEndianBound(t[..4]); }
  }

  /** Every record takes at least two bytes, so a parse makes at most half as many turns as there are bytes. */
  lemma {:induction false} TokensOk(s: bytes)
    requires Tokenise(s).Some?
    ensures RecordsOk(Tokenise(s).value) && 2 * |Tokenise(s).value| <= |s|
  {
    if s != [] {
      ReadRecordOk(s);
      TokensOk(s[ReadRecord(s).value.1..]);
    }
  }

  /** Reading is local: bytes after a record do not change how it is read. */
  lemma ReadBodyStable(wireType: nat, s: bytes, rest: bytes)
    requires ReadBody(wireType, s).Some?
    ensures ReadBody(wireType, s + rest) == ReadBody(wireType, s)
  {
    match wireType
    case 0 => DecodeStable(s, rest, 10);
    case 1 => assert (s + rest)[..8] == s[..8];
    case 2 =>
      DecodeStable(s, rest, 5);
      var (v, n) := ReadSize(s).value;
      assert (s + rest)[n..n + v] == s[n..n + v];
    case 5 => assert (s + rest)[..4] == s[..4];
  }

  lemma ReadRecordStable(s: bytes, rest: bytes)
    requires ReadRecord(s).Some?
    ensures ReadRecord(s + rest) == ReadRecord(s)
  {
    DecodeStable(s, rest, 5);
    var (tag, n) := ReadTag(s).value;
    assert (s + rest)[n..] == s[n..] + rest;
    ReadBodyStable(tag % 8, s[n..], rest);
  }

  lemma PrependNothing(rest: Option<seq<Record>>)
    ensures Prepend([], rest) == rest
  {
    if rest.Some? {
      assert [] + rest.value == rest.value;
    }
  }

  lemma PrependTwice(xs: seq<Record>, ys: seq<Record>, rest: Option<seq<Record>>)
    ensures Prepend(xs, Prepend(ys, rest)) == Prepend(xs + ys, rest)
  {
    if rest.Some? {
      assert xs + (ys + rest.value) == (xs + ys) + rest.value;
    }
  }

  /** Concatenating two inputs concatenates their records, provided the first ends on a record boundary. */
  lemma {:induction false} TokeniseConcat(s: bytes, rest: bytes)
    requires Tokenise(s).Some?
    ensures Tokenise(s + rest) == Prepend(Tokenise(s).value, Tokenise(rest))
  {
    if s == [] {
      assert s + rest == rest;
      PrependNothing(Tokenise(rest));
    } else {
      ReadRecordStable(s, rest);
      var (r, n) := ReadRecord(s).value;
      assert (s + rest)[n..] == s[n..] + rest;
      TokeniseConcat(s[n..], rest);
      PrependTwice([r], Tokenise(s[n..]).value, Tokenise(rest));
    }
  }

  // ---- Round trip -------------------------------------------------------------

  lemma ReadLenEmitted(t: bytes, rest: bytes)
    requires |t| <= MAX_LEN
    ensures ReadBody(2, EmitBody(Len(t)) + rest) == Some((Len(t), |EmitBody(Len(t))|))
  {
    var s, k := EmitBody(Len(t)) + rest, |EncodeVarint(|t|)|;
    Fits32(|t|);
    assert s == EncodeVarint(|t|) + (t + rest);
    DecodeEncode(|t|, 5, t + rest);
    assert s[k..k + |t|] == t;
  }

  lemma ReadFixedEmitted(v: nat, k: nat, rest: bytes)
    requires v < Pow256(k)
    ensures FromLittleEndian((LittleEndian(v, k) + rest)[..k]) == v
  {
    assert (LittleEndian(v, k) + rest)[..k] == LittleEndian(v, k);
    LittleEndianRoundTrip(v, k);
  }

  lemma ReadBodyEmitted(p: Payload, rest: bytes)
    requires PayloadOk(p)
    ensures ReadBody(WireType(p), EmitBody(p) + rest) == Some((p, |EmitBody(p)|))
  {
    FixedWidths();
    match p
    case Varint(v) =>
      Fits64(v);
      DecodeEncode(v, 10, rest);
    case Fixed64(v) => ReadFixedEmitted(v, 8, rest);
    case Len(t) => ReadLenEmitted(t, rest);
    case Fixed32(v) => ReadFixedEmitted(v, 4, rest);
  }

  lemma ReadTagEmitted(tag: nat, rest: bytes)
    requires tag < TWO_32
    ensures ReadTag(EncodeVarint(tag) + rest) == Some((tag, |EncodeVarint(tag)|))
  {
    Fits32(tag);
    DecodeEncode(tag, 5, rest);
  }

  lemma ReadRecordEmitted(r: Record, rest: bytes)
    requires RecordOk(r)
    ensures ReadRecord(EmitRecord(r) + rest) == Some((r, |EmitRecord(r)|))
  {
    hide ReadTag, ReadBody, EncodeVarint, EmitBody;
    var tag := Tag(r.num, WireType(r.body));
    var head, body := EncodeVarint(tag), EmitBody(r.body);
    assert EmitRecord(r) + rest == head + (body + rest);
    ReadTagEmitted(tag, body + rest);
    assert (EmitRecord(r) + rest)[|head|..] == body + rest;
    ReadBodyEmitted(r.body, rest);
  }

  /** The record-level round trip: canonical bytes are read back as exactly the records written. */
  lemma {:induction false} TokeniseEmitted(rs: seq<Record>)
    requires RecordsOk(rs)
    ensures Tokenise(Emit(rs)) == Some(rs)
  {
    if rs != [] {
      ReadRecordEmitted(rs[0], Emit(rs[1..]));
      var n := |EmitRecord(rs[0])|;
      assert Emit(rs)[n..] == Emit(rs[1..]);
      TokeniseEmitted(rs[1..]);
      assert [rs[0]] + rs[1..] == rs;
    }
  }

  lemma {:induction false} EmitConcat(xs: seq<Record>, ys: seq<Record>)
    ensures Emit(xs + ys) == Emit(xs) + Emit(ys)
  {
    if xs == [] {
      assert xs + ys == ys;
    } else {
      assert (xs + ys)[1..] == xs[1..] + ys;
      EmitConcat(xs[1..], ys);
    }
  }

  lemma EmitOne(r: Record)
    ensures Emit([r]) == EmitRecord(r)
  {
    assert [r][1..] == [];
  }

  // ---- Canonical bytes are never longer than what was read ----------------------

  lemma ReadRecordShrinks(s: bytes)
    requires ReadRecord(s).Some?
    ensures |EmitRecord(ReadRecord(s).value.0)| <= ReadRecord(s).value.1
  {
    var (tag, n) := ReadTag(s).value;
    var t := s[n..];
    ReadTagShrinks(s);
    var (p, k) := ReadBody(tag % 8, t).value;
    assert Tag(tag / 8, tag % 8) == tag;
    if tag % 8 == 0 {
      EncodeIsShortest(t, 10);
      EncodeMonotone(p.v, DecodeVarint(t, 10).value.0);
    } else if tag % 8 == 2 {
      EncodeIsShortest(t, 5);
    }
  }

  lemma ReadTagShrinks(s: bytes)
    requires ReadTag(s).Some?
    ensures |EncodeVarint(ReadTag(s).value.0)| <= ReadTag(s).value.1
  {
    EncodeIsShortest(s, 5);
    EncodeMonotone(ReadTag(s).value.0, DecodeVarint(s, 5).value.0);
  }

  lemma {:induction false} TokeniseShrinks(s: bytes)
    requires Tokenise(s).Some?
    ensures |Emit(Tokenise(s).value)| <= |s|
  {
    if s != [] {
      ReadRecordShrinks(s);
      TokeniseShrinks(s[ReadRecord(s).value.1..]);
      var r, rs := ReadRecord(s).value.0, Tokenise(s[ReadRecord(s).value.1..]).value;
      assert ([r] + rs)[1..] == rs;
    }
  }
}
