// Base-128 varints: the reference encoding and decoding functions, the size
// formula, and the accumulating loop of the runtime proved against them.
module Varints {
  import opened Bytes

  function Pow128(k: nat): (r: nat)
    ensures r >= 1
  {
    if k == 0 then 1 else 128 * Pow128(k - 1)
  }

  /** The canonical (shortest) encoding, least significant group first. */
  function EncodeVarint(v: nat): (r: bytes)
    ensures |r| >= 1
  {
    if v < 128 then [v] else [128 + v % 128] + EncodeVarint(v / 128)
  }

  /** Reads at most `room` bytes; the value is the unreduced sum, paired with the number of bytes read. */
  function DecodeVarint(s: bytes, room: nat): (r: Option<(nat, nat)>)
    ensures r.Some? ==> 1 <= r.value.1 <= |s| && r.value.1 <= room
  {
    if room == 0 || s == [] then None
    else if s[0] < 128 then Some((s[0], 1))
    else
      match DecodeVarint(s[1..], room - 1)
      case None => None
      case Some((v, n)) => Some((s[0] - 128 + 128 * v, n + 1))
  }

  lemma {:induction false} DecodeEncode(v: nat, room: nat, rest: bytes)
    requires 1 <= room && v < Pow128(room)
    ensures DecodeVarint(EncodeVarint(v) + rest, room) == Some((v, |EncodeVarint(v)|))
  {
    var s := EncodeVarint(v) + rest;
    if v >= 128 {
      assert Pow128(1) == 128 * Pow128(0);
      assert room >= 2;
      assert s[1..] == EncodeVarint(v / 128) + rest;
      DecodeEncode(v / 128, room - 1, rest);
    }
  }

  // ---- Byte by byte ------------------------------------------------------------------

  lemma Scaled(e: int, d: nat)
    ensures e >= 1 ==> e * d >= d
    ensures e <= -1 ==> e * d <= 0 - d
  {}

  lemma DivideUnique(v: nat, d: nat, q: nat, r: nat)
    requires v == q * d + r && r < d
    ensures v / d == q
  {
    assert v == (v / d) * d + v % d;
    assert (v / d - q) * d == (v / d) * d - q * d;
    Scaled(v / d - q, d);
  }

  lemma Recombine(a: nat, b: nat, y: nat, rb: nat, ra: nat)
    requires rb < b && ra < a
    ensures a * (y * b + rb) == y * (a * b) + a * rb && a * rb + ra < a * b
  {
    assert a * (y * b + rb) == a * (y * b) + a * rb;
    assert a * b == a * rb + a * (b - rb);
    Scaled(b - rb, a);
  }

  lemma DivideParts(v: nat, d: nat)
    requires d > 0
    ensures v == d * (v / d) + v % d && v % d < d
  {}

  lemma {:induction false} DivideTwice(v: nat, a: nat, b: nat)
    requires a > 0 && b > 0
    ensures a * b > 0 && v / a / b == v / (a * b)
  {
    var x := v / a;
    var y, rb, ra := x / b, x % b, v % a;
    DivideParts(v, a);
    DivideParts(x, b);
    Recombine(a, b, y, rb, ra);
    DivideUnique(v, a * b, y, a * rb + ra);
  }

  /** Byte `i` of a varint holds the seven bits from 7 i on; all but the last have the top bit set. */
  lemma {:induction false} EncodedByte(v: nat, i: nat)
    requires i < |EncodeVarint(v)|
    ensures EncodeVarint(v)[i] == v / Pow128(i) % 128 + if i + 1 < |EncodeVarint(v)| then 128 else 0
  {
    if i > 0 {
      EncodedByte(v / 128, i - 1);
      DivideTwice(v, 128, Pow128(i - 1));
    }
  }

  /** The value of the seven-bit groups of some bytes, the first one lowest. */
  function Groups(s: bytes): nat {
    if s == [] then 0
    else Groups(s[..|s| - 1]) + (s[|s| - 1] as int % 128) * Pow128(|s| - 1)
  }

  /** The bytes up to the first one below 128 are a varint, if there are at most `room` of them. */
  predicate Spelled(s: bytes, n: nat) {
    1 <= n <= |s| && s[n - 1] < 128 && forall i :: 0 <= i < n - 1 ==> s[i] >= 128
  }

  lemma {:induction false} GroupsFront(s: bytes)
    requires s != []
    ensures Groups(s) == s[0] as int % 128 + 128 * Groups(s[1..])
    decreases |s|
  {
    if |s| == 1 {
      assert s[..0] == [] && s[1..] == [];
    } else {
      var last := |s| - 1;
      GroupsFront(s[..last]);
      assert s[..last][1..] == s[1..][..last - 1];
      assert (s[last] as int % 128) * Pow128(last) == 128 * ((s[last] as int % 128) * Pow128(last - 1));
    }
  }

  lemma {:induction false} DecodeSpelled(s: bytes, room: nat, n: nat)
    requires n <= room && Spelled(s, n)
    ensures DecodeVarint(s, room) == Some((Groups(s[..n]), n))
    decreases n
  {
    GroupsFront(s[..n]);
    if n == 1 {
      assert s[..1][1..] == [];
    } else {
      assert s[..n][1..] == s[1..][..n - 1];
      DecodeSpelled(s[1..], room - 1, n - 1);
    }
  }

  lemma {:induction false} DecodedIsSpelled(s: bytes, room: nat)
    requires DecodeVarint(s, room).Some?
    ensures Spelled(s, DecodeVarint(s, room).value.1)
  {
    if s[0] >= 128 { DecodedIsSpelled(s[1..], room - 1); }
  }

  /** What is read, for every input: the bytes up to the first without the top bit, as a sum of groups. */
  lemma {:induction false} DecodeIff(s: bytes, room: nat, v: nat, n: nat)
    ensures DecodeVarint(s, room) == Some((v, n)) <==> n <= room && Spelled(s, n) && v == Groups(s[..n])
  {
    hide DecodeVarint, Groups, Spelled;
    if DecodeVarint(s, room).Some? {
      DecodedIsSpelled(s, room);
      DecodeSpelled(s, room, DecodeVarint(s, room).value.1);
    }
    if n <= room && Spelled(s, n) { DecodeSpelled(s, room, n); }
  }

  /** A successful read only looks at the bytes it consumes. */
  lemma {:induction false} DecodeStable(s: bytes, rest: bytes, room: nat)
    requires DecodeVarint(s, room).Some?
    ensures DecodeVarint(s + rest, room) == DecodeVarint(s, room)
  {
    if s[0] >= 128 {
      assert (s + rest)[1..] == s[1..] + rest;
      DecodeStable(s[1..], rest, room - 1);
    }
  }

  /** A refusal that has seen all the bytes it may look at does not change either. */
  lemma {:induction false} DecodeFinal(s: bytes, rest: bytes, room: nat)
    requires DecodeVarint(s, room).None? && |s| >= room
    ensures DecodeVarint(s + rest, room).None?
  {
    if room > 0 && s[0] >= 128 {
      assert (s + rest)[1..] == s[1..] + rest;
      DecodeFinal(s[1..], rest, room - 1);
    }
  }

  lemma {:induction false} EncodeMonotone(v: nat, w: nat)
    requires v <= w
    ensures |EncodeVarint(v)| <= |EncodeVarint(w)|
    decreases w
  {
    if v >= 128 {
      EncodeMonotone(v / 128, w / 128);
    }
  }

  /** Re-encoding a value that was read, however overlong its spelling, never takes more bytes. */
  lemma {:induction false} EncodeIsShortest(s: bytes, room: nat)
    requires DecodeVarint(s, room).Some?
    ensures |EncodeVarint(DecodeVarint(s, room).value.0)| <= DecodeVarint(s, room).value.1
  {
    if s[0] >= 128 {
      EncodeIsShortest(s[1..], room - 1);
      var v := DecodeVarint(s[1..], room - 1).value.0;
      assert (s[0] - 128 + 128 * v) / 128 == v;
    }
  }

  lemma {:induction false} SizeBound(v: nat, k: nat)
    requires k >= 1
    ensures |EncodeVarint(v)| <= k <==> v < Pow128(k)
  {
    if k == 1 {
      assert Pow128(1) == 128 * Pow128(0);
    } else {
      if v >= 128 {
        SizeBound(v / 128, k - 1);
      } else {
        assert Pow128(k) == 128 * Pow128(k - 1);
      }
    }
  }

  lemma Powers()
    ensures Pow128(1) == 0x80 && Pow128(2) == 0x4000 && Pow128(4) == 0x1000_0000
    ensures Pow128(5) == 0x8_0000_0000 && Pow128(9) == 0x8000_0000_0000_0000
    ensures Pow128(10) == 0x40_0000_0000_0000_0000
  {
    assert Pow128(3) == 0x20_0000;
    assert Pow128(6) == 128 * Pow128(5);
    assert Pow128(7) == 128 * Pow128(6);
    assert Pow128(8) == 128 * Pow128(7);
  }

  lemma Fits64(v: nat)
    requires v < TWO_64
    ensures v < Pow128(10) && |EncodeVarint(v)| <= 10
  {
    Powers();
    SizeBound(v, 10);
  }

  lemma Fits32(v: nat)
    requires v < TWO_32
    ensures v < Pow128(5) && |EncodeVarint(v)| <= 5
  {
    Powers();
    SizeBound(v, 5);
  }

  // ---- The size formula -------------------------------------------------

  /** Index of the highest set bit; 0 for 0, as the runtime's `value | 1` makes it. */
  function Log2Floor(v: nat): nat {
    if v < 2 then 0 else 1 + Log2Floor(v / 2)
  }

  lemma {:induction false} Log2Of128(v: nat)
    requires v >= 128
    ensures Log2Floor(v) == 7 + Log2Floor(v / 128)
  {
    var a, b, c := v / 2, v / 4, v / 8;
    var d, e, f := v / 16, v / 32, v / 64;
    assert a / 2 == b && b / 2 == c && c / 2 == d && d / 2 == e && e / 2 == f && f / 2 == v / 128;
    assert Log2Floor(v) == 1 + Log2Floor(a);
    assert Log2Floor(a) == 1 + Log2Floor(b);
    assert Log2Floor(b) == 1 + Log2Floor(c);
    assert Log2Floor(c) == 1 + Log2Floor(d);
    assert Log2Floor(d) == 1 + Log2Floor(e);
    assert Log2Floor(e) == 1 + Log2Floor(f);
  }

  lemma {:induction false} SmallLog(v: nat, k: nat)
    requires 1 <= k && v < Pow2(k)
    ensures Log2Floor(v) < k
  {
    if v >= 2 {
      SmallLog(v / 2, k - 1);
    }
  }

  function Pow2(k: nat): nat {
    if k == 0 then 1 else 2 * Pow2(k - 1)
  }

  lemma {:induction false} SizeByLog(v: nat)
    ensures |EncodeVarint(v)| == Log2Floor(v) / 7 + 1
  {
    if v < 128 {
      SmallLog(v, 7);
    } else {
      Log2Of128(v);
      SizeByLog(v / 128);
    }
  }

  /** The runtime divides by 64 instead of by 7; on 64-bit values that is the length of the encoding. */
  function VarintSize64(v: nat): (r: nat)
    requires v < TWO_64
    ensures r == |EncodeVarint(v)|
  {
    SizeByLog(v);
    Fits64(v);
    var log2value := Log2Floor(v);
    assert log2value / 7 <= 9;
    DivideBy64(log2value);
    (log2value * 9 + 73) / 64
  }

  lemma DivideBy64(l: nat)
    requires l / 7 <= 9
    ensures (l * 9 + 73) / 64 == l / 7 + 1
  {
    var q, r := l / 7, l % 7;
    assert l * 9 + 73 == 64 * (q + 1) + (9 + 9 * r - q);
  }

  // ---- The accumulating loop --------------------------------------------

  /** x << 7i, on unbounded integers. */
  function Shl7(x: int, i: nat): (r: int)
    ensures x >= 0 ==> r >= 0
  {
    if i == 0 then x else 128 * Shl7(x, i - 1)
  }

  lemma {:induction false} Shl7Linear(x: int, y: int, i: nat)
    ensures Shl7(x + y, i) == Shl7(x, i) + Shl7(y, i)
    ensures Shl7(128 * x, i) == Shl7(x, i + 1)
  {
    if i > 0 { Shl7Linear(x, y, i - 1); }
  }

  /** The value of a varint whose first `i` bytes contributed `acc` and whose remaining bytes read as `tail`. */
  ghost function Resume(acc: nat, i: nat, tail: Option<(nat, nat)>): Option<(nat, nat)> {
    match tail
    case None => None
    case Some((v, n)) => Some((acc + Shl7(v, i), n + i))
  }

  lemma ResumeStep(s: bytes, room: nat, acc: nat, i: nat)
    requires s != [] && room > 0
    ensures Resume(acc, i, DecodeVarint(s, room)) ==
            if s[0] < 128 then Some((acc + Shl7(s[0], i), i + 1))
            else Resume(acc + Shl7(s[0] - 128, i), i + 1, DecodeVarint(s[1..], room - 1))
  {
    if s[0] >= 128 && DecodeVarint(s[1..], room - 1).Some? {
      var v := DecodeVarint(s[1..], room - 1).value.0;
      Shl7Linear(s[0] - 128, 128 * v, i);
      Shl7Linear(v, 0, i);
    }
  }

  /** Unsigned wrap-around at 64 or at 32 bits. */
  function Wrap(x: int, wide: bool): (r: nat)
    ensures r < if wide then TWO_64 else TWO_32
  {
    if wide then x % 0x1_0000_0000_0000_0000 else x % 0x1_0000_0000
  }

  lemma WrapAdd(x: int, y: int, wide: bool)
    ensures Wrap(Wrap(x, wide) + y, wide) == Wrap(x + y, wide)
  {}

  /** Adding (byte - 1) << 7i turns the outstanding continuation bit into the byte's own contribution. */
  lemma AddByte(acc: nat, i: nat, byt: byte, wide: bool)
    ensures Wrap(Wrap(acc + Shl7(1, i), wide) + Shl7(byt - 1, i), wide) == Wrap(acc + Shl7(byt, i), wide)
    ensures byt >= 128 ==> acc + Shl7(byt, i) == acc + Shl7(byt - 128, i) + Shl7(1, i + 1)
  {
    WrapAdd(acc + Shl7(1, i), Shl7(byt - 1, i), wide);
    Shl7Linear(byt - 1, 1, i);
    Shl7Linear(byt - 128, 128, i);
    Shl7Linear(1, 0, i);
  }

  /** What a fixed-width reader makes of the unreduced value. */
  function ReadVarint(s: bytes, room: nat, wide: bool): (r: Option<(nat, nat)>)
    ensures r.Some? ==> r.value.0 < (if wide then TWO_64 else TWO_32)
    ensures r.Some? ==> 1 <= r.value.1 <= |s| && r.value.1 <= room
  {
    match DecodeVarint(s, room)
    case None => None
    case Some((v, n)) => Some((Wrap(v, wide), n))
  }

  /** The loop is about to look at byte `i`; the bytes before it all had their continuation bit set. */
  ghost predicate Pending(s: bytes, room: nat, wide: bool, i: nat, res: nat) {
    && i <= room && i <= |s|
    && exists acc: nat :: PendingSum(s, room, wide, i, res, acc)
  }

  ghost predicate PendingSum(s: bytes, room: nat, wide: bool, i: nat, res: nat, acc: nat)
    requires i <= room && i <= |s|
  {
    && res == Wrap(acc + Shl7(1, i), wide)
    && DecodeVarint(s, room) == Resume(acc, i, DecodeVarint(s[i..], room - i))
  }

  lemma LoopStart(s: bytes, room: nat, wide: bool)
    requires s != [] && s[0] >= 128 && room > 0
    ensures Pending(s, room, wide, 1, Wrap(s[0], wide))
  {
    assert Shl7(1, 1) == 128 * Shl7(1, 0);
    ResumeStep(s, room, 0, 0);
    assert PendingSum(s, room, wide, 1, Wrap(s[0], wide), s[0] - 128);
  }

  lemma LastTurn(s: bytes, room: nat, wide: bool, i: nat, acc: nat)
    requires i < |s| && i < room && s[i] < 128
    requires DecodeVarint(s, room) == Resume(acc, i, DecodeVarint(s[i..], room - i))
    ensures ReadVarint(s, room, wide) == Some((Wrap(acc + Shl7(s[i], i), wide), i + 1))
  {
    ResumeStep(s[i..], room - i, acc, i);
  }

  lemma NextTurn(s: bytes, room: nat, i: nat, acc: nat)
    requires i < |s| && i < room && s[i] >= 128
    requires DecodeVarint(s, room) == Resume(acc, i, DecodeVarint(s[i..], room - i))
    ensures DecodeVarint(s, room) ==
            Resume(acc + Shl7((s[i] as int) - 128, i), i + 1, DecodeVarint(s[i + 1..], room - i - 1))
  {
    assert s[i..][1..] == s[i + 1..];
    ResumeStep(s[i..], room - i, acc, i);
  }

  lemma AccumulateTurn(s: bytes, room: nat, wide: bool, i: nat, res: nat)
    requires i < |s| && i < room && Pending(s, room, wide, i, res)
    ensures var res' := Wrap(res + Shl7((s[i] as int) - 1, i), wide);
            if s[i] < 128 then ReadVarint(s, room, wide) == Some((res', i + 1)) else Pending(s, room, wide, i + 1, res')
  {
    var acc: nat :| PendingSum(s, room, wide, i, res, acc);
    AddByte(acc, i, s[i], wide);
    if s[i] < 128 {
      LastTurn(s, room, wide, i, acc);
    } else {
      NextTurn(s, room, i, acc);
      assert PendingSum(s, room, wide, i + 1, Wrap(res + Shl7((s[i] as int) - 1, i), wide),
                        acc + Shl7((s[i] as int) - 128, i));
    }
  }

  lemma LoopExit(s: bytes, room: nat, wide: bool, i: nat, res: nat)
    requires Pending(s, room, wide, i, res) && (i == room || i == |s|)
    ensures ReadVarint(s, room, wide) == None
  {}

  /**
   * The runtime's varint loop: each further byte adds (byte - 1) << 7i, where the -1 cancels the
   * continuation bit of the byte before. Arithmetic wraps at 64 or 32 bits; at most `room` bytes are
   * looked at, all of them in `s`.
   */
  method AccumulateVarint(s: bytes, room: nat, wide: bool) returns (r: Option<(nat, nat)>)
    requires 1 <= room
    ensures r == ReadVarint(s, room, wide)
  {
    if s == [] { return None; }
    if s[0] < 128 {
      return Some((Wrap(s[0], wide), 1));
    }
    var res: nat := Wrap(s[0], wide);
    var i := 1;
    LoopStart(s, room, wide);
    while i < room && i < |s|
      invariant i <= room && i <= |s|
      invariant Pending(s, room, wide, i, res)
    {
      AccumulateTurn(s, room, wide, i, res);
      res := Wrap(res + Shl7((s[i] as int) - 1, i), wide);
      if s[i] < 128 {
        return Some((res, i + 1));
      }
      i := i + 1;
    }
    LoopExit(s, room, wide, i, res);
    return None;
  }

  // ---- The writing loop -------------------------------------------------

  lemma Regroup(x: bytes, y: bytes, z: bytes)
    ensures (x + y) + z == x + (y + z)
  {}

  /** The runtime's writing loop: seven bits at a time, with the continuation bit while there is more. */
  method UnsafeVarint(value: nat, target: bytes) returns (out: bytes)
    ensures out == target + EncodeVarint(value)
  {
    var v := value;
    out := target;
    while v >= 0x80
      invariant out + EncodeVarint(v) == target + EncodeVarint(value)
      decreases v
    {
      Regroup(out, [128 + v % 128], EncodeVarint(v / 128));
      out := out + [128 + v % 128];
      v := v / 128;
    }
    out := out + [v];
  }
}
