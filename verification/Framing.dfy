// Packet framing: the 4-byte header in front of every message, the sender that
// builds a frame, and the receiver that cuts a byte stream back into frames.
module Framing {
  import opened Bytes
  import opened Wire
  import opened Codec
  import opened RoundTrip
  import opened Sizes

  type uint16 = x: int | 0 <= x < 0x1_0000

  const HEADER: nat := 4

  // The longest body whose frame length still fits the 16-bit size field.
  const MAX_BODY: nat := 0xFFFF - HEADER

  /** PacketHeader::size of the frame at the front of `s`. */
  function SizeField(s: bytes): (r: nat)
    requires |s| >= HEADER
    ensures r < 0x1_0000
  {
    (s[0] as int) + 256 * (s[1] as int)
  }

  function IdField(s: bytes): (r: nat)
    requires |s| >= HEADER
  {
    (s[2] as int) + 256 * (s[3] as int)
  }

  function Header(size: uint16, id: uint16): (r: bytes)
    ensures |r| == HEADER && SizeField(r) == size && IdField(r) == id
  {
    [size % 256, size / 256, id % 256, id / 256]
  }

  function Frame(id: uint16, body: bytes): (r: bytes)
    requires |body| <= MAX_BODY
    ensures |r| == HEADER + |body| && SizeField(r) == |r| && IdField(r) == id && r[HEADER..] == body
  {
    Header(HEADER + |body|, id) + body
  }

  // ---- Building a frame -------------------------------------------------------

  // HeaderOverrun: the wrapped packet size leaves no room for the header in the buffer.
  // SerializeRefused: SerializeToArray returns false, so the assert around it fails.
  datatype Sent = Built(buffer: array<byte>) | HeaderOverrun | SerializeRefused

  /**
   * MakeSendBuffer: the computed size is narrowed to 16 bits twice, once without and once with the header.
   * SerializeToArray then writes `body`, unless the size exceeds INT_MAX or the buffer.
   */
  method MakeSendBuffer(byteSize: nat, body: bytes, id: uint16) returns (r: Sent)
    requires byteSize <= INT_MAX ==> |body| == byteSize
    ensures r.Built? <==> byteSize <= 65531
    ensures r.Built? ==> fresh(r.buffer) && r.buffer[..] == Frame(id, body)
    ensures r.Built? ==>
              var n := 4 + |body|;
              r.buffer[..] == [n % 0x100, n / 0x100, id % 0x100, id / 0x100] + body
    ensures r.HeaderOverrun? <==> byteSize % 0x1_0000 > 65531
  {
    var dataSize: uint16 := byteSize % 0x1_0000;
    var packetSize: uint16 := (dataSize + HEADER) % 0x1_0000;
    if packetSize < HEADER { return HeaderOverrun; }
    var buffer := new byte[packetSize];
    buffer[0], buffer[1] := packetSize % 256, packetSize / 256;
    buffer[2], buffer[3] := id % 256, id / 256;
    if byteSize > INT_MAX || dataSize < byteSize { return SerializeRefused; }
    var i := 0;
    while i < |body|
      invariant i <= |body|
      invariant buffer[..HEADER] == Header(packetSize, id) && buffer[HEADER..HEADER + i] == body[..i]
    {
      buffer[HEADER + i] := body[i];
      i := i + 1;
    }
    assert i == |body| && body[..i] == body && HEADER + i == buffer.Length;
    assert buffer[HEADER..] == buffer[HEADER..HEADER + i];
    assert buffer[..] == buffer[..HEADER] + buffer[HEADER..];
    FrameBytes(id, body);
    return Built(buffer);
  }

  /** The header of a frame, byte by byte. */
  lemma FrameBytes(id: uint16, body: bytes)
    requires |body| <= 65531
    ensures var n := 4 + |body|; Frame(id, body) == [n % 0x100, n / 0x100, id % 0x100, id / 0x100] + body
  {}

  function Zeros(n: nat): (r: bytes)
    ensures |r| == n && forall i :: 0 <= i < n ==> r[i] == 0
  {
    seq(n, _ => 0)
  }

  /**
   * The same in a build without asserts, where the serialization inside the assert is gone with it: the
   * header and as many zero bytes as the narrowed size says.
   */
  method MakeSendBufferUnchecked(byteSize: nat, id: uint16) returns (r: Sent)
    ensures r.Built? <==> byteSize % 0x1_0000 <= MAX_BODY
    ensures r.Built? ==> fresh(r.buffer) && r.buffer[..] == Frame(id, Zeros(byteSize % 0x1_0000))
    ensures r.HeaderOverrun? <==> byteSize % 0x1_0000 > MAX_BODY
  {
    var dataSize: uint16 := byteSize % 0x1_0000;
    var packetSize: uint16 := (dataSize + HEADER) % 0x1_0000;
    if packetSize < HEADER { return HeaderOverrun; }
    var buffer := new byte[packetSize](_ => 0);
    buffer[0], buffer[1] := packetSize % 256, packetSize / 256;
    buffer[2], buffer[3] := id % 256, id / 256;
    assert buffer[..HEADER] == Header(packetSize, id) && buffer[HEADER..] == Zeros(dataSize);
    assert buffer[..] == buffer[..HEADER] + buffer[HEADER..];
    return Built(buffer);
  }

  /** No receiver accepts such a frame unless its body is empty, whatever the message type. */
  lemma {:induction false} ZeroFrameIsRefused(sc: Schema, id: uint16, n: nat, rest: bytes)
    requires n <= MAX_BODY
    ensures var s := Frame(id, Zeros(n)) + rest;
            SizeField(s) == HEADER + n && ParsePacket(sc, s) == if n == 0 then Some(Default(sc)) else None
  {
    var s := Frame(id, Zeros(n)) + rest;
    assert s[HEADER..HEADER + n] == Zeros(n);
    if n > 0 {
      assert ReadTag(Zeros(n)) == Some((0, 1));
    } else {
      assert Zeros(n) == [] && Parse(sc, Default(sc), []) == Some(Default(sc));
    }
  }

  /** Above the bound the 16-bit size is never the true frame length. */
  lemma SizeFieldWraps(body: bytes)
    ensures (|body| % 0x1_0000 + HEADER) % 0x1_0000 == HEADER + |body| <==> |body| <= MAX_BODY
  {}

  /** ParsePacket: the body's length is taken from the header. */
  function ParsePacket(sc: Schema, buffer: bytes): Option<Msg>
    requires |buffer| >= HEADER && HEADER <= SizeField(buffer) <= |buffer|
  {
    Parse(sc, Default(sc), buffer[HEADER..SizeField(buffer)])
  }

  /** The framing round trip, whatever follows the frame in the buffer. */
  lemma {:induction false} FrameRoundTrip(sc: Schema, m: Msg, id: uint16, rest: bytes)
    requires SchemaOk(sc) && Valid(sc, m) && |Serialize(sc, m)| <= MAX_BODY
    ensures var f := Frame(id, Serialize(sc, m));
            && SizeField(f + rest) == |f| && IdField(f + rest) == id
            && ParsePacket(sc, f + rest) == if TextOk(sc, m) then Some(m) else None
  {
    hide Serialize, Parse, SchemaOk;
    var body := Serialize(sc, m);
    var f := Frame(id, body);
    assert (f + rest)[HEADER..|f|] == f[HEADER..];
    SmallFits(sc, m, MAX_LEN);
    RoundTrips(sc, m);
  }

  // ---- Cutting a stream into frames -----------------------------------------------

  /** `s` starts with a whole frame, as far as the receiver can tell. */
  predicate HasFrame(s: bytes) {
    |s| >= HEADER && SizeField(s) <= |s|
  }

  /** What one call of OnRecv delivers. */
  function Frames(s: bytes): seq<bytes> {
    if HasFrame(s) && SizeField(s) > 0 then [s[..SizeField(s)]] + Frames(s[SizeField(s)..]) else []
  }

  /** What it leaves in the buffer. */
  function Rest(s: bytes): (r: bytes)
    ensures HasFrame(r) ==> SizeField(r) == 0
  {
    if HasFrame(s) && SizeField(s) > 0 then Rest(s[SizeField(s)..]) else s
  }

  /** A header with size 0 was reached: the loop delivers the same empty packet for ever. */
  predicate Stuck(s: bytes) {
    HasFrame(Rest(s))
  }

  function Flatten(fs: seq<bytes>): bytes {
    if fs == [] then [] else fs[0] + Flatten(fs[1..])
  }

  /** `f` is one frame: its header announces exactly its own length. */
  predicate WholeFrame(f: bytes) {
    |f| >= HEADER && SizeField(f) == |f|
  }

  /** Frames and rest together are the input: nothing is lost, repeated or reordered. */
  lemma {:induction false} NothingLost(s: bytes)
    ensures Flatten(Frames(s)) + Rest(s) == s
  {
    if HasFrame(s) && SizeField(s) > 0 {
      var n := SizeField(s);
      NothingLost(s[n..]);
      var fs := Frames(s[n..]);
      assert ([s[..n]] + fs)[1..] == fs;
      assert (s[..n] + Flatten(fs)) + Rest(s) == s[..n] + (Flatten(fs) + Rest(s));
    }
  }

  /** What is left is an incomplete frame, so it is shorter than any 16-bit size. */
  lemma RestIsShort(s: bytes)
    requires !Stuck(s)
    ensures |Rest(s)| < 0xFFFF
  {}

  /** The receiver can be stopped and resumed anywhere. */
  lemma {:induction false} Resumes(s: bytes, t: bytes)
    requires !Stuck(s)
    ensures Frames(s + t) == Frames(s) + Frames(Rest(s) + t)
    ensures Rest(s + t) == Rest(Rest(s) + t)
  {
    if HasFrame(s) && SizeField(s) > 0 {
      var n := SizeField(s);
      assert (s + t)[..n] == s[..n] && (s + t)[n..] == s[n..] + t;
      Resumes(s[n..], t);
    }
  }

  /** A concatenation of whole frames splits into exactly those frames, whatever incomplete data follows. */
  lemma {:induction false} SplitsUniquely(fs: seq<bytes>, t: bytes)
    requires forall i :: 0 <= i < |fs| ==> WholeFrame(fs[i])
    ensures Frames(Flatten(fs) + t) == fs + Frames(t) && Rest(Flatten(fs) + t) == Rest(t)
  {
    if fs == [] {
      assert Flatten(fs) + t == t && fs + Frames(t) == Frames(t);
    } else {
      SplitsUniquely(fs[1..], t);
      FrameInFront(fs[0], Flatten(fs[1..]) + t);
      assert Flatten(fs) + t == fs[0] + (Flatten(fs[1..]) + t);
      assert fs + Frames(t) == [fs[0]] + (fs[1..] + Frames(t));
    }
  }

  lemma FrameInFront(f: bytes, t: bytes)
    requires WholeFrame(f)
    ensures Frames(f + t) == [f] + Frames(t) && Rest(f + t) == Rest(t)
  {
    assert (f + t)[..|f|] == f && (f + t)[|f|..] == t;
  }

  /**
   * The first two bytes of a packet are its length, low byte first, and the next two its id: behind such a
   * header the receiver cuts off exactly that many bytes, and without them all it waits.
   */
  lemma {:induction false} HeaderBytes(a: byte, b: byte, c: byte, d: byte, s: bytes)
    ensures var n, t := a + 0x100 * (b as int), [a, b, c, d] + s;
            && IdField(t) == c + 0x100 * (d as int)
            && (n > |t| ==> Frames(t) == [] && Rest(t) == t)
            && (0 < n <= |t| ==> Frames(t) == [t[..n]] + Frames(t[n..]) && Rest(t) == Rest(t[n..]))
            && (4 <= n <= |t| ==> t[..n] == [a, b, c, d] + s[..n - 4] && t[n..] == s[n - 4..])
  {
    var t := [a, b, c, d] + s;
    assert t[0] == a && t[1] == b && t[2] == c && t[3] == d;
  }

  /** Less than four bytes are no header yet. */
  lemma NoHeader(s: bytes)
    requires |s| < 4
    ensures Frames(s) == [] && Rest(s) == s
  {}

  /** Where the k-th frame boundary of `s` is, as the headers announce it. */
  function Boundary(s: bytes, k: nat): (at: nat)
    ensures at <= |s|
  {
    if k == 0 || !HasFrame(s) then 0 else SizeField(s) + Boundary(s[SizeField(s)..], k - 1)
  }

  /** The headers lead, in k steps, to one that is complete and announces size 0. */
  predicate ZeroHeaderAfter(s: bytes, k: nat) {
    var t := s[Boundary(s, k)..];
    |t| >= HEADER && t[0] == 0 && t[1] == 0
  }

  lemma {:induction false} RestAfterAll(s: bytes)
    ensures s[Boundary(s, |Frames(s)|)..] == Rest(s)
  {
    if HasFrame(s) && SizeField(s) > 0 {
      var n := SizeField(s);
      RestAfterAll(s[n..]);
      assert |Frames(s)| == 1 + |Frames(s[n..])|;
    }
  }

  lemma {:induction false} ZeroHeaderSticks(s: bytes, k: nat)
    requires ZeroHeaderAfter(s, k)
    ensures Stuck(s)
    decreases k
  {
    assert Boundary(s, 0) == 0 && s[0..] == s;
    if k > 0 && HasFrame(s) && SizeField(s) > 0 {
      var n := SizeField(s);
      assert s[Boundary(s, k)..] == s[n..][Boundary(s[n..], k - 1)..];
      ZeroHeaderSticks(s[n..], k - 1);
    }
  }

  /** The loop diverges exactly when, behind some frames, the input goes on with a header of size 0. */
  lemma {:induction false} StuckIff(s: bytes)
    ensures Stuck(s) <==> exists k: nat :: ZeroHeaderAfter(s, k)
  {
    if Stuck(s) {
      RestAfterAll(s);
      assert ZeroHeaderAfter(s, |Frames(s)|);
    }
    if k: nat :| ZeroHeaderAfter(s, k) {
      ZeroHeaderSticks(s, k);
    }
  }

  /** Four zero bytes are enough, behind any frames. */
  lemma {:induction false} ZeroBytesStick(fs: seq<bytes>)
    requires forall i :: 0 <= i < |fs| ==> WholeFrame(fs[i])
    ensures Stuck(Flatten(fs) + [0, 0, 0, 0])
  {
    SplitsUniquely(fs, [0, 0, 0, 0]);
    assert ZeroHeaderAfter([0, 0, 0, 0], 0);
    ZeroHeaderSticks([0, 0, 0, 0], 0);
  }

  // ---- Chunks ---------------------------------------------------------------------------

  /** A receiver holding `rest` gets the stream chunk by chunk: all frames delivered, and what is left. */
  function Receive(rest: bytes, chunks: seq<bytes>): (seq<bytes>, bytes)
    decreases |chunks|
  {
    if chunks == [] then ([], rest)
    else
      var s := rest + chunks[0];
      var (later, left) := Receive(Rest(s), chunks[1..]);
      (Frames(s) + later, left)
  }

  lemma {:induction false} StuckStays(s: bytes, t: bytes)
    requires Stuck(s)
    ensures Stuck(s + t) && Frames(s + t) == Frames(s)
  {
    if HasFrame(s) && SizeField(s) > 0 {
      var n := SizeField(s);
      assert (s + t)[..n] == s[..n] && (s + t)[n..] == s[n..] + t;
      StuckStays(s[n..], t);
    }
  }

  lemma RestIsDone(s: bytes)
    ensures Frames(Rest(s)) == [] && Rest(Rest(s)) == Rest(s)
  {}

  /** However a stream is cut into chunks, the receiver delivers the frames of the whole stream. */
  lemma {:induction false} ChunkingIrrelevant(rest: bytes, chunks: seq<bytes>)
    requires !Stuck(rest + Flatten(chunks)) && Frames(rest) == [] && Rest(rest) == rest
    ensures Receive(rest, chunks) == (Frames(rest + Flatten(chunks)), Rest(rest + Flatten(chunks)))
    decreases |chunks|
  {
    if chunks == [] {
      assert rest + Flatten(chunks) == rest;
    } else {
      var s, later := rest + chunks[0], Flatten(chunks[1..]);
      assert rest + Flatten(chunks) == s + later;
      if Stuck(s) { StuckStays(s, later); }
      Resumes(s, later);
      RestIsDone(s);
      ChunkingIrrelevant(Rest(s), chunks[1..]);
    }
  }

  /** Frames that were sent arrive one for one, in order and complete, through any segmentation. */
  lemma {:induction false} SentFramesArrive(fs: seq<bytes>, chunks: seq<bytes>)
    requires forall i :: 0 <= i < |fs| ==> WholeFrame(fs[i])
    requires Flatten(chunks) == Flatten(fs)
    ensures Receive([], chunks) == (fs, [])
  {
    SplitsUniquely(fs, []);
    assert Flatten(fs) + [] == Flatten(fs) && fs + [] == fs && [] + Flatten(chunks) == Flatten(chunks);
    ChunkingIrrelevant([], chunks);
  }
}
