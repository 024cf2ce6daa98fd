// The chat server as one system: bytes arrive on the game servers' connections in any
// segmentation and interleaving, are cut into packets, and every packet is served.
module ChatServer {
  import opened Bytes
  import opened Codec
  import opened Messages
  import opened Framing
  import opened Receiving
  import opened Sessions
  import opened Relay
  import opened Runs

  datatype Arrival =
    | Joins(s: ChatSession)
    | Leaves(s: ChatSession)
    | Moves(player: bytes, location: Option<bytes>)
    | Arrives(r: PacketSession, data: bytes)

  // ---- What arrivals mean -------------------------------------------------------------

  /** Everything connection `r` has received after the first `n` arrivals, given what it had before. */
  ghost function Stream(start: map<PacketSession, bytes>, arrivals: seq<Arrival>, n: nat, r: PacketSession): bytes
    requires n <= |arrivals| && r in start
  {
    if n == 0 then start[r]
    else if arrivals[n - 1].Arrives? && arrivals[n - 1].r == r then
      Stream(start, arrivals, n - 1, r) + arrivals[n - 1].data
    else Stream(start, arrivals, n - 1, r)
  }

  predicate Open(start: map<PacketSession, bytes>, arrivals: seq<Arrival>) {
    forall i :: 0 <= i < |arrivals| && arrivals[i].Arrives? ==> arrivals[i].r in start
  }

  /** The packets that arrival `i` completes. */
  ghost function Burst(start: map<PacketSession, bytes>, arrivals: seq<Arrival>, i: nat): seq<bytes>
    requires i < |arrivals| && Open(start, arrivals)
  {
    match arrivals[i]
    case Arrives(r, data) => Frames(Rest(Stream(start, arrivals, i, r)) + data)
    case _ => []
  }

  function Packets(fs: seq<bytes>): seq<Input> {
    seq(|fs|, i requires 0 <= i < |fs| => Packet(fs[i]))
  }

  ghost function InputsAt(start: map<PacketSession, bytes>, arrivals: seq<Arrival>, i: nat): seq<Input>
    requires i < |arrivals| && Open(start, arrivals)
  {
    match arrivals[i]
    case Joins(s) => [Connected(s)]
    case Leaves(s) => [Disconnected(s)]
    case Moves(player, location) => [Located(player, location)]
    case Arrives(_, _) => Packets(Burst(start, arrivals, i))
  }

  /** The inputs of the run that the first `n` arrivals make up. */
  ghost function InputsOf(start: map<PacketSession, bytes>, arrivals: seq<Arrival>, n: nat): seq<Input>
    requires n <= |arrivals| && Open(start, arrivals)
  {
    if n == 0 then [] else InputsOf(start, arrivals, n - 1) + InputsAt(start, arrivals, n - 1)
  }

  /** The packets among them that came from `r`. */
  ghost function PacketsFrom(
    start: map<PacketSession, bytes>, arrivals: seq<Arrival>, n: nat, r: PacketSession
  ): seq<bytes>
    requires n <= |arrivals| && Open(start, arrivals)
  {
    if n == 0 then []
    else if arrivals[n - 1].Arrives? && arrivals[n - 1].r == r then
      PacketsFrom(start, arrivals, n - 1, r) + Burst(start, arrivals, n - 1)
    else PacketsFrom(start, arrivals, n - 1, r)
  }

  /** However its stream is cut and interleaved with others, a connection's packets are the frames of the stream. */
  lemma {:induction false} PacketsAreFrames(
    start: map<PacketSession, bytes>, arrivals: seq<Arrival>, n: nat, r: PacketSession
  )
    requires n <= |arrivals| && Open(start, arrivals) && r in start
    ensures Frames(Stream(start, arrivals, n, r)) == Frames(start[r]) + PacketsFrom(start, arrivals, n, r)
  {
    hide Frames, Rest, Stuck;
    if n > 0 {
      PacketsAreFrames(start, arrivals, n - 1, r);
      if arrivals[n - 1].Arrives? && arrivals[n - 1].r == r {
        var s, data := Stream(start, arrivals, n - 1, r), arrivals[n - 1].data;
        FramesGoOn(s, data);
      }
    }
  }

  lemma {:induction false} FramesGoOn(s: bytes, t: bytes)
    ensures Frames(s + t) == Frames(s) + Frames(Rest(s) + t)
  {
    if Stuck(s) {
      StuckStays(s, t);
      assert Frames(Rest(s) + t) == [];
    } else {
      Resumes(s, t);
    }
  }

  /** Frames sent over a new connection come out one for one and in order. */
  lemma {:induction false} ServedAsSent(
    start: map<PacketSession, bytes>, arrivals: seq<Arrival>, n: nat, r: PacketSession, fs: seq<bytes>
  )
    requires n <= |arrivals| && Open(start, arrivals) && r in start && start[r] == []
    requires (forall i :: 0 <= i < |fs| ==> WholeFrame(fs[i])) && Stream(start, arrivals, n, r) == Flatten(fs)
    ensures PacketsFrom(start, arrivals, n, r) == fs
  {
    hide Stream, PacketsFrom;
    PacketsAreFrames(start, arrivals, n, r);
    SplitsUniquely(fs, []);
    assert Flatten(fs) + [] == Flatten(fs) && Frames([]) == [] && fs + [] == fs;
    assert [] + PacketsFrom(start, arrivals, n, r) == PacketsFrom(start, arrivals, n, r);
  }

  /** And a valid chat among them is relayed with exactly the fields its sender put in. */
  lemma {:induction false} SentChatStep(m: Msg, step: Step<ChatSession>)
    requires Valid(ChatSchema(), m) && TextOk(ChatSchema(), m) && |Serialize(ChatSchema(), m)| <= MAX_BODY
    requires var body := Serialize(ChatSchema(), m);
             Takes(Packet([(4 + |body|) % 0x100, (4 + |body|) / 0x100, 0x2D, 0x01] + body), step)
    ensures step == RelayChat(FieldsOf(m)) && Runnable([step])
  {
    hide Serialize, Parse, Valid, TextOk;
    ValidFrameIsRelayed(m);
    FrameBytes(SS_RELAY_CHAT, Serialize(ChatSchema(), m));
    assert [step][0] == step;
  }

  // ---- The objects -----------------------------------------------------------------------

  // Diverged: a header of size 0 was reached. ShortPacket: a packet has no room for its header.
  datatype Ending = Finished | Halted(outcome: Outcome) | Diverged | ShortPacket

  ghost function Buffers(receivers: set<PacketSession>): set<object> {
    (set r | r in receivers :: r.recvBuffer as object) + (set r | r in receivers :: r.recvBuffer.buffer as object)
  }

  /** No two connections share a buffer. */
  ghost predicate Separate(receivers: set<PacketSession>) {
    forall r, q :: r in receivers && q in receivers && r != q ==>
      r.recvBuffer != q.recvBuffer && r.recvBuffer.buffer != q.recvBuffer.buffer
  }

  function Entering(arrivals: seq<Arrival>): set<ChatSession> {
    set i | 0 <= i < |arrivals| && arrivals[i].Joins? :: arrivals[i].s
  }

  /** What the connections hold after the first `n` arrivals. */
  ghost predicate Caught(
    receivers: set<PacketSession>, start: map<PacketSession, bytes>, arrivals: seq<Arrival>, n: nat
  )
    requires n <= |arrivals| && start.Keys == receivers
    reads receivers, Buffers(receivers)
  {
    forall r :: r in receivers ==> r.Valid() && r.received == Stream(start, arrivals, n, r)
  }

  /** The arrival of bytes on one connection; `frames` are the packets they complete. */
  method TakeIn(
    ghost receivers: set<PacketSession>, ghost start: map<PacketSession, bytes>, arrivals: seq<Arrival>, i: nat
  ) returns (stuck: bool, frames: seq<bytes>)
    requires i < |arrivals| && arrivals[i].Arrives? && start.Keys == receivers && Open(start, arrivals)
    requires Separate(receivers) && Caught(receivers, start, arrivals, i)
    modifies receivers, Buffers(receivers)
    ensures frames == Burst(start, arrivals, i)
    ensures if stuck then Stuck(Stream(start, arrivals, i + 1, arrivals[i].r))
            else Caught(receivers, start, arrivals, i + 1)
  {
    hide Stuck, Frames, Rest, PacketSession.Valid;
    var r := arrivals[i].r;
    var before := |r.delivered|;
    label start:
    stuck := r.ReceiveAll(arrivals[i].data);
    frames := r.delivered[before..];
    if !stuck {
      forall q | q in receivers
        ensures q.Valid() && q.received == Stream(start, arrivals, i + 1, q)
      {
        if q != r {
          assert unchanged@start(q) && unchanged@start(q.recvBuffer) && unchanged@start(q.recvBuffer.buffer);
        }
      }
    }
  }

  /** How many packets come before the first that is shorter than its header. */
  method LongEnough(frames: seq<bytes>) returns (k: nat)
    ensures k <= |frames| && (forall j :: 0 <= j < k ==> |frames[j]| >= HEADER)
    ensures k < |frames| ==> |frames[k]| < HEADER
  {
    k := 0;
    while k < |frames| && |frames[k]| >= HEADER
      invariant k <= |frames| && forall j :: 0 <= j < k ==> |frames[j]| >= HEADER
    {
      k := k + 1;
    }
  }

  /** An ending fits the inputs it was reached with: which of them was not served, and why. */
  ghost predicate EndsSo(inputs: seq<Input>, served: nat, ending: Ending) {
    match ending
    case Finished => served == |inputs|
    case Halted(outcome) => served < |inputs| && Stops(inputs[served], outcome)
    case ShortPacket => served < |inputs| && inputs[served].Packet? && |inputs[served].buffer| < HEADER
    case Diverged => served == |inputs|
  }

  /** The inputs of one arrival, up to the first short packet. */
  method NextInputs(
    ghost receivers: set<PacketSession>, ghost start: map<PacketSession, bytes>, arrivals: seq<Arrival>, i: nat
  ) returns (inputs: seq<Input>, stuck: bool, short: bool)
    requires i < |arrivals| && start.Keys == receivers && Open(start, arrivals)
    requires Separate(receivers) && Caught(receivers, start, arrivals, i)
    modifies receivers, Buffers(receivers)
    ensures inputs <= InputsAt(start, arrivals, i)
    ensures forall j :: 0 <= j < |inputs| ==> Servable(inputs[j], arrivals)
    ensures EndsSo(InputsAt(start, arrivals, i), |inputs|, if short then ShortPacket else Finished)
    ensures if stuck then arrivals[i].Arrives? && Stuck(Stream(start, arrivals, i + 1, arrivals[i].r))
            else Caught(receivers, start, arrivals, i + 1)
  {
    hide Stuck, Burst, PacketSession.Valid;
    inputs, stuck, short := [], false, false;
    match arrivals[i]
    case Joins(s) => inputs := [Connected(s)];
    case Leaves(s) => inputs := [Disconnected(s)];
    case Moves(player, location) => inputs := [Located(player, location)];
    case Arrives(_, _) =>
      var frames;
      stuck, frames := TakeIn(receivers, start, arrivals, i);
      var k := LongEnough(frames);
      short := k < |frames|;
      inputs := Packets(frames[..k]);
  }

  /** What is known of an input before it is served. */
  predicate Servable(input: Input, arrivals: seq<Arrival>) {
    && (input.Connected? ==> input.s in Entering(arrivals))
    && (input.Packet? ==> |input.buffer| >= HEADER)
  }

  /** One arrival: its bytes are taken in and its packets served one after the other. */
  method ServeArrival(
    ghost receivers: set<PacketSession>, ghost start: map<PacketSession, bytes>, arrivals: seq<Arrival>, i: nat,
    redis: RedisClient, manager: ChatSessionManager, noticeText: bytes
  ) returns (ending: Ending, ghost steps: seq<Step<ChatSession>>)
    requires i < |arrivals| && start.Keys == receivers && Open(start, arrivals)
    requires Separate(receivers) && Caught(receivers, start, arrivals, i)
    requires manager.Valid() && Entering(arrivals) <= manager.known
    modifies redis, manager, manager.known, receivers, Buffers(receivers)
    ensures TakesAll(InputsAt(start, arrivals, i), steps) && Runnable(steps)
    ensures EndsSo(InputsAt(start, arrivals, i), |steps|, ending)
    ensures ending == Finished ==> Caught(receivers, start, arrivals, i + 1)
    ensures ending == Diverged ==> arrivals[i].Arrives? && Stuck(Stream(start, arrivals, i + 1, arrivals[i].r))
    ensures ending != Halted(Overrun) ==>
              && manager.Valid() && manager.known == old(manager.known)
              && WorldOf(redis, manager) ==
                After(Server(redis.connected, noticeText), old(WorldOf(redis, manager)), steps)
  {
    hide Stops, TakesAll, EndsSo, After, Runnable, Stuck, InputsAt;
    hide Caught, Joining, Stream, Entering, WorldOf, Member, Outbox;
    var inputs, stuck, short := NextInputs(receivers, start, arrivals, i);
    JoiningEnters(inputs, arrivals);
    var outcome;
    outcome, steps := Run(inputs, redis, manager, noticeText);
    JoiningEnters(inputs[..|steps|], arrivals);
    EndingFits(InputsAt(start, arrivals, i), inputs, steps, outcome, short, stuck);
    return EndingOf(outcome, short, stuck), steps;
  }

  function EndingOf(outcome: Outcome, short: bool, stuck: bool): Ending {
    if outcome != Relayed then Halted(outcome) else if short then ShortPacket else if stuck then Diverged else Finished
  }

  lemma EndingFits(
    all: seq<Input>, inputs: seq<Input>, steps: seq<Step<ChatSession>>, outcome: Outcome, short: bool, stuck: bool
  )
    requires inputs <= all && TakesAll(inputs, steps) && EndsSo(all, |inputs|, if short then ShortPacket else Finished)
    requires if outcome == Relayed then |steps| == |inputs| else |steps| < |inputs| && Stops(inputs[|steps|], outcome)
    ensures TakesAll(all, steps) && EndsSo(all, |steps|, EndingOf(outcome, short, stuck))
  {
    hide Stops, Takes;
  }

  lemma JoiningEnters(inputs: seq<Input>, arrivals: seq<Arrival>)
    requires forall j :: 0 <= j < |inputs| ==> Servable(inputs[j], arrivals)
    ensures Joining(inputs) <= Entering(arrivals)
  {}

  lemma TakesConcat(xs: seq<Input>, ss: seq<Step<ChatSession>>, ys: seq<Input>, ts: seq<Step<ChatSession>>)
    requires TakesAll(xs, ss) && |ss| == |xs| && TakesAll(ys, ts)
    ensures TakesAll(xs + ys, ss + ts)
  {
    hide Takes;
  }

  /** An ending of the last arrival is one of the whole sequence. */
  lemma EndsConcat(xs: seq<Input>, ys: seq<Input>, served: nat, ending: Ending)
    requires EndsSo(ys, served, ending)
    ensures EndsSo(xs + ys, |xs| + served, ending)
  {
    hide Stops;
  }

  /** What the server has done after `n` arrivals, or has been stopped at. */
  ghost predicate Progress(
    start: map<PacketSession, bytes>, arrivals: seq<Arrival>, n: nat, steps: seq<Step<ChatSession>>, ending: Ending
  )
    requires Open(start, arrivals)
  {
    && n <= |arrivals| && Runnable(steps)
    && TakesAll(InputsOf(start, arrivals, n), steps) && EndsSo(InputsOf(start, arrivals, n), |steps|, ending)
    && (ending == Diverged ==>
          0 < n && arrivals[n - 1].Arrives? && arrivals[n - 1].r in start &&
            Stuck(Stream(start, arrivals, n, arrivals[n - 1].r)))
  }

  lemma {:induction false} OneMore(
    start: map<PacketSession, bytes>, arrivals: seq<Arrival>, n: nat,
    steps: seq<Step<ChatSession>>, more: seq<Step<ChatSession>>, ending: Ending
  )
    requires Open(start, arrivals) && n < |arrivals| && Progress(start, arrivals, n, steps, Finished)
    requires TakesAll(InputsAt(start, arrivals, n), more) && Runnable(more)
    requires EndsSo(InputsAt(start, arrivals, n), |more|, ending)
    requires ending == Diverged ==> arrivals[n].Arrives? && Stuck(Stream(start, arrivals, n + 1, arrivals[n].r))
    ensures Runnable(steps + more) && Progress(start, arrivals, n + 1, steps + more, ending)
  {
    hide Stops, TakesAll, Stuck, InputsAt, Stream;
    TakesConcat(InputsOf(start, arrivals, n), steps, InputsAt(start, arrivals, n), more);
    EndsConcat(InputsOf(start, arrivals, n), InputsAt(start, arrivals, n), |more|, ending);
  }

  /** The loop over the arrivals. */
  method WorkThrough(
    arrivals: seq<Arrival>, ghost receivers: set<PacketSession>, ghost start: map<PacketSession, bytes>,
    redis: RedisClient, manager: ChatSessionManager, noticeText: bytes, ghost w: World
  ) returns (ending: Ending, ghost n: nat, ghost steps: seq<Step<ChatSession>>)
    requires manager.Valid() && Entering(arrivals) <= manager.known && w == WorldOf(redis, manager)
    requires start.Keys == receivers && Separate(receivers) && Open(start, arrivals) &&
             Caught(receivers, start, arrivals, 0)
    modifies redis, manager, manager.known, receivers, Buffers(receivers)
    ensures Progress(start, arrivals, n, steps, ending) && (ending == Finished ==> n == |arrivals|)
    ensures ending == Finished ==> Caught(receivers, start, arrivals, n)
    ensures ending != Halted(Overrun) ==>
              && manager.Valid() && manager.known == old(manager.known)
              && WorldOf(redis, manager) == After(Server(redis.connected, noticeText), w, steps)
  {
    hide After, InputsAt, Open, Progress, Caught, EndsSo;
    hide TakesAll, Runnable, Separate, WorldOf, Entering, Member, Outbox;
    ghost var server := Server(redis.connected, noticeText);
    ending, n, steps := Finished, 0, [];
    var i := 0;
    AfterNothing(server, w);
    NothingYet(start, arrivals);
    while i < |arrivals|
      invariant i == n <= |arrivals| && ending == Finished && Runnable(steps) && manager.Valid()
      invariant Progress(start, arrivals, n, steps, Finished)
      invariant Caught(receivers, start, arrivals, n) && manager.known == old(manager.known)
      invariant WorldOf(redis, manager) == After(server, w, steps)
    {
      ghost var more;
      ending, more := ServeArrival(receivers, start, arrivals, i, redis, manager, noticeText);
      AfterTwice(server, w, steps, more);
      OneMore(start, arrivals, i, steps, more, ending);
      steps, n, i := steps + more, n + 1, i + 1;
      if ending != Finished { break; }
    }
  }

  /**
   * The server over any interleaving of connects, disconnects, moves and bytes on its connections, cut in
   * any way. It works through the inputs that the frames of the streams make up, until one of them halts
   * it or a stream reaches a header of size 0. Unless a send buffer was overrun, Redis, the session history
   * and the queues are those of the run; and at the end every connection has delivered exactly its packets.
   */
  method Operate(
    arrivals: seq<Arrival>, ghost receivers: set<PacketSession>, ghost start: map<PacketSession, bytes>,
    redis: RedisClient, manager: ChatSessionManager, noticeText: bytes, ghost w: World
  ) returns (ending: Ending, ghost n: nat, ghost steps: seq<Step<ChatSession>>)
    requires manager.Valid() && w == WorldOf(redis, manager)
    requires forall s :: s in Entering(arrivals) ==> s in manager.known || s.sendQueue == []
    requires start.Keys == receivers && Separate(receivers) && Open(start, arrivals) &&
             Caught(receivers, start, arrivals, 0)
    modifies redis, manager, manager.known, Entering(arrivals), receivers, Buffers(receivers)
    ensures Progress(start, arrivals, n, steps, ending)
    ensures ending == Finished ==>
              && n == |arrivals| && Caught(receivers, start, arrivals, n)
              && forall r :: r in receivers ==> r.delivered == old(r.delivered) + PacketsFrom(start, arrivals, n, r)
    ensures ending != Halted(Overrun) ==>
              && manager.Valid()
              && WorldOf(redis, manager) == After(Server(redis.connected, noticeText), w, steps)
    ensures ending != Halted(Overrun) ==>
              forall s :: s in old(manager.sessions) && NoDisconnect(steps, s) ==>
                s.sendQueue == old(s.sendQueue) + FramesToAll(Server(redis.connected, noticeText), w.store, steps)
  {
    hide After, InputsOf, FramesToAll, Member, Outbox, Open, EndsSo;
    hide TakesAll, Runnable, Separate, PacketsFrom, Frames, Stuck, NoDisconnect;
    manager.Expect(Entering(arrivals));
    ending, n, steps := WorkThrough(arrivals, receivers, start, redis, manager, noticeText, w);
    if ending == Finished {
      forall r | r in receivers
        ensures r.delivered == old(r.delivered) + PacketsFrom(start, arrivals, n, r)
      {
        PacketsAreFrames(start, arrivals, n, r);
      }
    }
    if ending != Halted(Overrun) {
      ghost var server := Server(redis.connected, noticeText);
      forall s | s in old(manager.sessions) && NoDisconnect(steps, s)
        ensures s.sendQueue == old(s.sendQueue) + FramesToAll(server, w.store, steps)
      {
        QueueAfter(manager, server, w, steps, s);
      }
    }
  }

  lemma NothingYet(start: map<PacketSession, bytes>, arrivals: seq<Arrival>)
    requires Open(start, arrivals)
    ensures Runnable<ChatSession>([]) && Progress(start, arrivals, 0, [], Finished)
  {}
}
