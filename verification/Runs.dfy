// Whole runs of the chat server: any interleaving of connects, disconnects, player
// moves and packets, and what reaches the sessions and the Redis channels.
module Runs {
  import opened Bytes
  import opened Framing
  import opened Sessions
  import opened Relay

  // Locate: a game server records a player's location, or forgets it. Ignored: a packet of another type.
  datatype Step<S> =
    | Connect(s: S)
    | Disconnect(s: S)
    | Locate(player: bytes, location: Option<bytes>)
    | RelayChat(f: Fields)
    | Ignored

  /** What stays fixed in a run: whether Redis was connected at startup, and the notice text. */
  datatype Server = Server(connected: bool, noticeText: bytes)

  /** A run without an abort: every relayed body fits a frame. */
  predicate Runnable<S>(steps: seq<Step<S>>) {
    forall i :: 0 <= i < |steps| && steps[i].RelayChat? ==> |Payload(steps[i].f)| <= MAX_BODY
  }

  function StoreAfter<S>(store: map<bytes, bytes>, step: Step<S>): map<bytes, bytes> {
    match step
    case Locate(player, Some(l)) => store[LocationKey(player) := l]
    case Locate(player, None) => store - {LocationKey(player)}
    case _ => store
  }

  function Store<S>(store: map<bytes, bytes>, steps: seq<Step<S>>): map<bytes, bytes>
    decreases |steps|
  {
    if steps == [] then store else Store(StoreAfter(store, steps[0]), steps[1..])
  }

  function EffectOf<S>(server: Server, store: map<bytes, bytes>, step: Step<S>): Effect {
    if step.RelayChat? then Route(step.f, server.connected, store, server.noticeText) else Nothing
  }

  /** The frames a step broadcasts: none or one. */
  function FramesOf<S>(server: Server, store: map<bytes, bytes>, step: Step<S>): seq<bytes>
    requires Runnable([step])
  {
    if step.RelayChat? && EffectOf(server, store, step).ToAllSessions? then
      assert [step][0] == step;
      [Frame(SS_BROADCAST_CHAT, Payload(step.f))]
    else []
  }

  /** What a step does to the session set and the queues. */
  function EventsOf<S>(server: Server, store: map<bytes, bytes>, step: Step<S>): seq<Event<S>>
    requires Runnable([step])
  {
    match step
    case Connect(s) => [Added(s)]
    case Disconnect(s) => [Removed(s)]
    case Locate(_, _) => []
    case Ignored => []
    case RelayChat(f) =>
      assert [step][0] == step;
      Events(EffectOf(server, store, step), Frame(SS_BROADCAST_CHAT, Payload(f)))
  }

  function History<S>(server: Server, store: map<bytes, bytes>, steps: seq<Step<S>>): seq<Event<S>>
    requires Runnable(steps)
    decreases |steps|
  {
    if steps == [] then []
    else EventsOf(server, store, steps[0]) + History(server, StoreAfter(store, steps[0]), steps[1..])
  }

  function Published<S>(server: Server, store: map<bytes, bytes>, steps: seq<Step<S>>): seq<Publication>
    decreases |steps|
  {
    if steps == [] then []
    else Publications(EffectOf(server, store, steps[0])) + Published(server, StoreAfter(store, steps[0]), steps[1..])
  }

  /** All frames that a run broadcasts, in the order of its relays. */
  function FramesToAll<S>(server: Server, store: map<bytes, bytes>, steps: seq<Step<S>>): seq<bytes>
    requires Runnable(steps)
    decreases |steps|
  {
    if steps == [] then []
    else FramesOf(server, store, steps[0]) + FramesToAll(server, StoreAfter(store, steps[0]), steps[1..])
  }

  // ---- Runs in pieces ---------------------------------------------------------------

  lemma {:induction false} RunConcat<S>(server: Server, store: map<bytes, bytes>, xs: seq<Step<S>>, ys: seq<Step<S>>)
    requires Runnable(xs) && Runnable(ys)
    ensures Runnable(xs + ys) && Store(store, xs + ys) == Store(Store(store, xs), ys)
    ensures History(server, store, xs + ys) == History(server, store, xs) + History(server, Store(store, xs), ys)
    ensures Published(server, store, xs + ys) == Published(server, store, xs) + Published(server, Store(store, xs), ys)
    decreases |xs|
  {
    hide EventsOf, EffectOf, StoreAfter, Publications;
    if xs == [] {
      assert xs + ys == ys;
    } else {
      assert (xs + ys)[1..] == xs[1..] + ys;
      var next := StoreAfter(store, xs[0]);
      RunConcat(server, next, xs[1..], ys);
      Regroup(EventsOf(server, store, xs[0]), History(server, next, xs[1..]),
        History(server, Store(next, xs[1..]), ys));
      Regroup(Publications(EffectOf(server, store, xs[0])), Published(server, next, xs[1..]),
        Published(server, Store(next, xs[1..]), ys));
    }
  }

  lemma Regroup<T>(x: seq<T>, y: seq<T>, z: seq<T>)
    ensures (x + y) + z == x + (y + z)
  {}

  lemma {:induction false} BroadcastsConcat<S>(h: seq<Event<S>>, k: seq<Event<S>>)
    ensures Broadcasts(h + k) == Broadcasts(h) + Broadcasts(k)
    decreases |k|
  {
    if k == [] {
      assert h + k == h;
    } else {
      var last := |k| - 1;
      assert (h + k)[..|h + k| - 1] == h + k[..last] && (h + k)[|h + k| - 1] == k[last];
      BroadcastsConcat(h, k[..last]);
    }
  }

  /** The broadcasts of the history are the frames of the relays that are routed to all sessions. */
  lemma {:induction false} BroadcastsOfRun<S>(server: Server, store: map<bytes, bytes>, steps: seq<Step<S>>)
    requires Runnable(steps)
    ensures Broadcasts(History(server, store, steps)) == FramesToAll(server, store, steps)
    decreases |steps|
  {
    hide Broadcasts, EventsOf, FramesOf, StoreAfter;
    if steps == [] {
      NoBroadcasts<S>();
    } else {
      BroadcastsConcat(EventsOf(server, store, steps[0]), History(server, StoreAfter(store, steps[0]), steps[1..]));
      BroadcastsOfStep(server, store, steps[0]);
      BroadcastsOfRun(server, StoreAfter(store, steps[0]), steps[1..]);
    }
  }

  lemma NoBroadcasts<S>()
    ensures Broadcasts<S>([]) == []
  {}

  lemma BroadcastsOfStep<S>(server: Server, store: map<bytes, bytes>, step: Step<S>)
    requires Runnable([step])
    ensures Broadcasts(EventsOf(server, store, step)) == FramesOf(server, store, step)
  {
    hide Route;
    var events := EventsOf(server, store, step);
    if events != [] { assert events[..0] == []; }
  }

  // ---- Delivery ----------------------------------------------------------------------

  predicate NoDisconnect<S(==)>(steps: seq<Step<S>>, s: S) {
    forall i :: 0 <= i < |steps| ==> steps[i] != Disconnect(s)
  }

  lemma {:induction false} NotRemoved<S>(server: Server, store: map<bytes, bytes>, steps: seq<Step<S>>, s: S)
    requires Runnable(steps) && NoDisconnect(steps, s)
    ensures Removed(s) !in History(server, store, steps)
    decreases |steps|
  {
    hide Route, StoreAfter;
    if steps != [] {
      NotRemoved(server, StoreAfter(store, steps[0]), steps[1..], s);
    }
  }

  lemma {:induction false} StaysMember<S>(h: seq<Event<S>>, s: S, i: nat, j: nat)
    requires i <= j <= |h| && Member(h[..i], s) && Removed(s) !in h[i..]
    ensures Member(h[..j], s)
    decreases j
  {
    if i < j {
      StaysMember(h, s, i, j - 1);
      assert h[..j][..j - 1] == h[..j - 1] && h[j - 1] == h[i..][j - 1 - i];
    }
  }

  /**
   * Over any run in which a connected session does not disconnect, its queue grows by exactly the frames
   * of the relays routed to all sessions, in relay order, whatever happened before and is interleaved.
   */
  lemma {:induction false} DeliveredWhileConnected<S>(
    h: seq<Event<S>>, server: Server, store: map<bytes, bytes>, steps: seq<Step<S>>, s: S
  )
    requires Runnable(steps) && Member(h, s) && NoDisconnect(steps, s)
    ensures Outbox(h + History(server, store, steps), s) == Outbox(h, s) + FramesToAll(server, store, steps)
  {
    hide History, FramesToAll, Outbox, Member, Broadcasts, Runnable, NoDisconnect;
    NotRemoved(server, store, steps, s);
    BroadcastsOfRun(server, store, steps);
    var later := History(server, store, steps);
    var all, i, j := h + later, |h|, |h + later|;
    assert all[..i] == h && all[i..] == later && all[i..j] == later && all[..j] == all;
    forall k | i <= k < j
      ensures Member(all[..k], s)
    {
      StaysMember(all, s, i, k);
    }
    GetsEverything(all, s, i, j);
  }

  /** So any two sessions that stay connected over a run are sent the same frames in the same order. */
  lemma {:induction false} SameForAll<S>(
    h: seq<Event<S>>, server: Server, store: map<bytes, bytes>, steps: seq<Step<S>>, s: S, t: S
  )
    requires Runnable(steps) && Member(h, s) && Member(h, t) && NoDisconnect(steps, s) && NoDisconnect(steps, t)
    ensures var h' := h + History(server, store, steps);
            exists sent :: Outbox(h', s) == Outbox(h, s) + sent && Outbox(h', t) == Outbox(h, t) + sent
  {
    DeliveredWhileConnected(h, server, store, steps, s);
    DeliveredWhileConnected(h, server, store, steps, t);
  }

  // ---- Routing over a run ---------------------------------------------------------------

  /** Where `player` was last located before step `i`. */
  function LastLocation<S>(store: map<bytes, bytes>, steps: seq<Step<S>>, i: nat, player: bytes): Option<bytes>
    requires i <= |steps|
  {
    if i == 0 then (if LocationKey(player) in store then Some(store[LocationKey(player)]) else None)
    else if steps[i - 1].Locate? && steps[i - 1].player == player then steps[i - 1].location
    else LastLocation(store, steps, i - 1, player)
  }

  /** The channel that step `i` publishes on, by the type of the chat and the last known locations. */
  function ChannelOf<S>(server: Server, store: map<bytes, bytes>, steps: seq<Step<S>>, i: nat): Option<bytes>
    requires i < |steps|
  {
    if !server.connected || !steps[i].RelayChat? then None
    else if steps[i].f.kind == 0 then Some(CHAT_GLOBAL)
    else if steps[i].f.kind != 2 then None
    else
      match LastLocation(store, steps, i, steps[i].f.target)
      case Some(l) => Some(CHAT_WHISPER + l)
      case None =>
        match LastLocation(store, steps, i, steps[i].f.sender)
        case Some(l) => Some(CHAT_WHISPER + l)
        case None => None
  }

  /** What it publishes there: the chat, or the notice when a whisper's target has no known location. */
  function Carried<S>(server: Server, store: map<bytes, bytes>, steps: seq<Step<S>>, i: nat): bytes
    requires i < |steps| && steps[i].RelayChat?
  {
    var f := steps[i].f;
    if f.kind == 2 && LastLocation(store, steps, i, f.target).None? then
      var notice := NoticeFields(f.sender, server.noticeText);
      if |notice| <= 2147483647 then notice else []
    else ChatFields(f)
  }

  /** What a subscriber of channel `c` receives. */
  function OnChannel(log: seq<Publication>, c: bytes): seq<bytes> {
    if log == [] then []
    else
      var last := log[|log| - 1];
      if last.channel == c then OnChannel(log[..|log| - 1], c) + [last.payload] else OnChannel(log[..|log| - 1], c)
  }

  lemma KeysDiffer(p: bytes, q: bytes)
    ensures LocationKey(p) == LocationKey(q) <==> p == q
  {
    assert LocationKey(p)[11..] == p && LocationKey(q)[11..] == q;
  }

  /** The key-value store holds the last location of every player. */
  lemma {:induction false} StoreHoldsLast<S>(store: map<bytes, bytes>, steps: seq<Step<S>>, i: nat, player: bytes)
    requires i <= |steps|
    ensures var held, key := Store(store, steps[..i]), LocationKey(player);
            LastLocation(store, steps, i, player) == if key in held then Some(held[key]) else None
  {
    hide LocationKey, Store;
    if i == 0 {
      EmptyRun(store, steps);
    } else {
      StoreHoldsLast(store, steps, i - 1, player);
      StoreLast(store, steps, i);
      if steps[i - 1].Locate? { KeysDiffer(steps[i - 1].player, player); }
    }
  }

  lemma EmptyRun<S>(store: map<bytes, bytes>, steps: seq<Step<S>>)
    ensures Store(store, steps[..0]) == store
  {}

  lemma {:induction false} StoreLast<S>(store: map<bytes, bytes>, steps: seq<Step<S>>, i: nat)
    requires 0 < i <= |steps|
    ensures Store(store, steps[..i]) == StoreAfter(Store(store, steps[..i - 1]), steps[i - 1])
    decreases i
  {
    hide StoreAfter;
    if i == 1 {
      assert steps[..1][1..] == [];
    } else {
      assert steps[..i][1..] == steps[1..][..i - 1] && steps[..i - 1][1..] == steps[1..][..i - 2];
      StoreLast(StoreAfter(store, steps[0]), steps[1..], i - 1);
    }
  }

  lemma OneStep<S>(server: Server, store: map<bytes, bytes>, step: Step<S>)
    requires Runnable([step])
    ensures Store(store, [step]) == StoreAfter(store, step)
    ensures History(server, store, [step]) == EventsOf(server, store, step)
    ensures Published(server, store, [step]) == Publications(EffectOf(server, store, step))
    ensures FramesToAll(server, store, [step]) == FramesOf(server, store, step)
  {
    hide StoreAfter, EventsOf, EffectOf, FramesOf, Publications;
    assert [step][1..] == [] && [step][0] == step;
    assert EventsOf(server, store, step) + [] == EventsOf(server, store, step);
    assert Publications(EffectOf(server, store, step)) + [] == Publications(EffectOf(server, store, step));
    assert FramesOf(server, store, step) + [] == FramesOf(server, store, step);
  }

  lemma {:induction false} RunLast<S>(server: Server, store: map<bytes, bytes>, steps: seq<Step<S>>, i: nat)
    requires 0 < i <= |steps| && Runnable(steps)
    ensures Runnable(steps[..i]) && Runnable(steps[..i - 1]) && Runnable([steps[i - 1]])
    ensures var held := Store(store, steps[..i - 1]);
            && Published(server, store, steps[..i]) ==
               Published(server, store, steps[..i - 1]) + Publications(EffectOf(server, held, steps[i - 1]))
            && FramesToAll(server, store, steps[..i]) ==
               FramesToAll(server, store, steps[..i - 1]) + FramesOf(server, held, steps[i - 1])
  {
    hide Store, History, Published, FramesToAll, EffectOf, FramesOf, Publications, Payload;
    var before, step := steps[..i - 1], steps[i - 1];
    assert steps[..i] == before + [step];
    RunConcat(server, store, before, [step]);
    FramesConcat(server, store, before, [step]);
    OneStep(server, Store(store, before), step);
  }

  lemma FramesConcat<S>(server: Server, store: map<bytes, bytes>, xs: seq<Step<S>>, ys: seq<Step<S>>)
    requires Runnable(xs) && Runnable(ys)
    ensures Runnable(xs + ys)
    ensures FramesToAll(server, store, xs + ys) ==
            FramesToAll(server, store, xs) + FramesToAll(server, Store(store, xs), ys)
  {
    hide Store, History, FramesToAll, Broadcasts;
    RunConcat(server, store, xs, ys);
    BroadcastsOfRun(server, store, xs);
    BroadcastsOfRun(server, Store(store, xs), ys);
    BroadcastsOfRun(server, store, xs + ys);
    BroadcastsConcat(History(server, store, xs), History(server, Store(store, xs), ys));
  }

  /** One step's publication, by channel. */
  lemma {:induction false} StepOnChannel<S>(
    server: Server, store: map<bytes, bytes>, steps: seq<Step<S>>, i: nat, c: bytes
  )
    requires i < |steps|
    ensures OnChannel(Publications(EffectOf(server, Store(store, steps[..i]), steps[i])), c) ==
            if ChannelOf(server, store, steps, i) == Some(c) then [Carried(server, store, steps, i)] else []
  {
    hide LocationKey, WhisperChannel, Ascii, Store, Payload, LastLocation, NoticeFields, ChatFields, OnChannel;
    var e := EffectOf(server, Store(store, steps[..i]), steps[i]);
    SingleOnChannel(e, c);
    if steps[i].RelayChat? {
      NoticeBytes(steps[i].f.sender, server.noticeText);
      NameBytes([], []);
      forall l: bytes ensures WhisperChannel(l) == CHAT_WHISPER + l { NameBytes(l, []); }
      StoreHoldsLast(store, steps, i, steps[i].f.target);
      StoreHoldsLast(store, steps, i, steps[i].f.sender);
    }
  }

  lemma SingleOnChannel(e: Effect, c: bytes)
    ensures OnChannel(Publications(e), c) == if e.Publish? && e.p.channel == c then [e.p.payload] else []
  {
    if e.Publish? { assert [e.p][..0] == []; }
  }

  lemma {:induction false} OnChannelConcat(xs: seq<Publication>, ys: seq<Publication>, c: bytes)
    ensures OnChannel(xs + ys, c) == OnChannel(xs, c) + OnChannel(ys, c)
    decreases |ys|
  {
    if ys == [] {
      assert xs + ys == xs;
    } else {
      var last := |ys| - 1;
      assert (xs + ys)[..|xs + ys| - 1] == xs + ys[..last] && (xs + ys)[|xs + ys| - 1] == ys[last];
      OnChannelConcat(xs, ys[..last], c);
    }
  }

  /** The steps before `n` that publish on channel `c`. */
  function Publishers<S>(server: Server, store: map<bytes, bytes>, steps: seq<Step<S>>, n: nat, c: bytes): seq<nat>
    requires n <= |steps|
  {
    if n == 0 then []
    else if ChannelOf(server, store, steps, n - 1) == Some(c) then Publishers(server, store, steps, n - 1, c) + [n - 1]
    else Publishers(server, store, steps, n - 1, c)
  }

  /**
   * Routing over a whole run: a channel carries exactly the chats whose type and last known locations
   * send them there, and the notices to senders located there, one each and in the order of the relays.
   */
  lemma {:induction false} ChannelOfRun<S>(
    server: Server, store: map<bytes, bytes>, steps: seq<Step<S>>, n: nat, c: bytes
  )
    requires Runnable(steps) && n <= |steps|
    ensures var ks, log := Publishers(server, store, steps, n, c), OnChannel(Published(server, store, steps[..n]), c);
            && (forall k: nat :: k in ks <==> k < n && ChannelOf(server, store, steps, k) == Some(c))
            && (forall i, j :: 0 <= i < j < |ks| ==> ks[i] < ks[j])
            && |log| == |ks|
            && (forall i :: 0 <= i < |ks| ==>
                  ks[i] < n && steps[ks[i]].RelayChat? && log[i] == Carried(server, store, steps, ks[i]))
  {
    hide Carried, ChannelOf, EffectOf, Publications, FramesToAll, Published, FramesOf, OnChannel, Store, Runnable;
    if n == 0 {
      NothingPublished(server, store, steps, c);
    } else {
      ChannelOfRun(server, store, steps, n - 1, c);
      RunLast(server, store, steps, n);
      var held := Store(store, steps[..n - 1]);
      OnChannelConcat(Published(server, store, steps[..n - 1]), Publications(EffectOf(server, held, steps[n - 1])), c);
      StepOnChannel(server, store, steps, n - 1, c);
      if ChannelOf(server, store, steps, n - 1) == Some(c) { ChannelIsRelay(server, store, steps, n - 1); }
    }
  }

  lemma NothingPublished<S>(server: Server, store: map<bytes, bytes>, steps: seq<Step<S>>, c: bytes)
    ensures OnChannel(Published(server, store, steps[..0]), c) == []
  {}

  lemma ChannelIsRelay<S>(server: Server, store: map<bytes, bytes>, steps: seq<Step<S>>, i: nat)
    requires i < |steps| && ChannelOf(server, store, steps, i).Some?
    ensures steps[i].RelayChat?
  {}

  /** The server at location `l` is reached by a whisper to a player there, or by a notice to one there. */
  predicate ReachesLocation<S>(server: Server, store: map<bytes, bytes>, steps: seq<Step<S>>, k: nat, l: bytes)
    requires k < |steps|
  {
    && server.connected && steps[k].RelayChat? && steps[k].f.kind == 2
    && (LastLocation(store, steps, k, steps[k].f.target) == Some(l)
        || (LastLocation(store, steps, k, steps[k].f.target).None?
            && LastLocation(store, steps, k, steps[k].f.sender) == Some(l)))
  }

  /**
   * What one game server gets, subscribed to the global channel and to that of its own location: on the
   * first every chat of type 0, on the second exactly the whispers to players last located there and the
   * notices to whisperers there whose target has no location, each in the order of the relays.
   */
  lemma {:induction false} SubscriberOfLocation<S>(
    server: Server, store: map<bytes, bytes>, steps: seq<Step<S>>, n: nat, l: bytes
  )
    requires Runnable(steps) && n <= |steps|
    ensures var ks, log := Publishers(server, store, steps, n, CHAT_WHISPER + l),
                           OnChannel(Published(server, store, steps[..n]), CHAT_WHISPER + l);
            && (forall k: nat :: k in ks <==> k < n && ReachesLocation(server, store, steps, k, l))
            && (forall i, j :: 0 <= i < j < |ks| ==> ks[i] < ks[j])
            && |log| == |ks|
            && (forall i :: 0 <= i < |ks| ==>
                  ks[i] < n && steps[ks[i]].RelayChat? && log[i] == Carried(server, store, steps, ks[i]))
    ensures var ks, log := Publishers(server, store, steps, n, CHAT_GLOBAL),
                           OnChannel(Published(server, store, steps[..n]), CHAT_GLOBAL);
            && (forall k: nat :: k in ks <==> k < n && server.connected && steps[k].RelayChat? && steps[k].f.kind == 0)
            && (forall i, j :: 0 <= i < j < |ks| ==> ks[i] < ks[j])
            && |log| == |ks|
            && (forall i :: 0 <= i < |ks| ==>
                  ks[i] < n && steps[ks[i]].RelayChat? && log[i] == ChatFields(steps[ks[i]].f))
  {
    hide LastLocation, NoticeFields, ChatFields, Publishers, OnChannel, Published, Runnable;
    ChannelOfRun(server, store, steps, n, CHAT_WHISPER + l);
    ChannelOfRun(server, store, steps, n, CHAT_GLOBAL);
    forall k: nat | k < n
      ensures ChannelOf(server, store, steps, k) == Some(CHAT_WHISPER + l) <==>
              ReachesLocation(server, store, steps, k, l)
      ensures ChannelOf(server, store, steps, k) == Some(CHAT_GLOBAL) <==>
                server.connected && steps[k].RelayChat? && steps[k].f.kind == 0
    {
      ChannelKind(server, store, steps, k, l);
    }
  }

  lemma {:induction false} ChannelKind<S>(
    server: Server, store: map<bytes, bytes>, steps: seq<Step<S>>, k: nat, l: bytes
  )
    requires k < |steps|
    ensures ChannelOf(server, store, steps, k) == Some(CHAT_WHISPER + l) <==>
            ReachesLocation(server, store, steps, k, l)
    ensures ChannelOf(server, store, steps, k) == Some(CHAT_GLOBAL) <==>
              server.connected && steps[k].RelayChat? && steps[k].f.kind == 0
  {
    hide LastLocation, WhisperChannel;
    forall a: bytes
      ensures CHAT_WHISPER + a == CHAT_WHISPER + l <==> a == l
      ensures CHAT_WHISPER + a != CHAT_GLOBAL
    {
      WhisperChannelsDiffer(a, l);
      NameBytes(a, []);
      NameBytes(l, []);
    }
  }

  /** A chat for all sessions: of any type but the first and the whisper, or of any type without Redis. */
  predicate GoesToAll<S>(server: Server, step: Step<S>) {
    step.RelayChat? && (!server.connected || (step.f.kind != 0 && step.f.kind != 2))
  }

  function Broadcasters<S>(server: Server, steps: seq<Step<S>>, n: nat): seq<nat>
    requires n <= |steps|
  {
    if n == 0 then []
    else if GoesToAll(server, steps[n - 1]) then Broadcasters(server, steps, n - 1) + [n - 1]
    else Broadcasters(server, steps, n - 1)
  }

  predicate IsFrameOf(frame: bytes, f: Fields) {
    |Payload(f)| <= 65531 && frame == BroadcastFrame(f)
  }

  /** The frames a run sends to all sessions are those of exactly these chats, one each and in their order. */
  lemma {:induction false} ToAllOfRun<S>(server: Server, store: map<bytes, bytes>, steps: seq<Step<S>>, n: nat)
    requires Runnable(steps) && n <= |steps|
    ensures Runnable(steps[..n])
    ensures var ks, frames := Broadcasters(server, steps, n), FramesToAll(server, store, steps[..n]);
            && (forall k: nat :: k in ks <==> k < n && GoesToAll(server, steps[k]))
            && (forall i, j :: 0 <= i < j < |ks| ==> ks[i] < ks[j])
            && |frames| == |ks|
            && (forall i :: 0 <= i < |ks| ==>
                  ks[i] < n && steps[ks[i]].RelayChat? && IsFrameOf(frames[i], steps[ks[i]].f))
  {
    hide GoesToAll, FramesToAll, FramesOf, Published, EffectOf, Publications, IsFrameOf, Store, Runnable;
    if n == 0 {
      NoFrames(server, store, steps);
    } else {
      ToAllOfRun(server, store, steps, n - 1);
      RunLast(server, store, steps, n);
      StepToAll(server, Store(store, steps[..n - 1]), steps[n - 1]);
    }
  }

  lemma NoFrames<S>(server: Server, store: map<bytes, bytes>, steps: seq<Step<S>>)
    ensures Runnable(steps[..0]) && FramesToAll(server, store, steps[..0]) == []
  {}

  lemma StepToAll<S>(server: Server, store: map<bytes, bytes>, step: Step<S>)
    requires Runnable([step])
    ensures |FramesOf(server, store, step)| == if GoesToAll(server, step) then 1 else 0
    ensures GoesToAll(server, step) ==> step.RelayChat? && IsFrameOf(FramesOf(server, store, step)[0], step.f)
  {
    hide Frame, Payload, LocationKey, Stringified;
    assert [step][0] == step;
  }

  // ---- The objects ------------------------------------------------------------------------

  // Located: what Redis is told by a game server when a player enters or leaves it.
  datatype Input =
    | Connected(s: ChatSession)
    | Disconnected(s: ChatSession)
    | Located(player: bytes, location: Option<bytes>)
    | Packet(buffer: bytes)

  /** A packet has a header, and a session that was never connected has sent nothing. */
  ghost predicate Acceptable(input: Input, manager: ChatSessionManager)
    reads manager`known, if input.Connected? then {input.s} else {}
  {
    match input
    case Connected(s) => s in manager.known || s.sendQueue == []
    case Packet(buffer) => |buffer| >= HEADER
    case _ => true
  }

  /** The step that an input takes; the fields of a relay are what its body decodes to. */
  ghost predicate Takes(input: Input, step: Step<ChatSession>) {
    match input
    case Connected(s) => step == Connect(s)
    case Disconnected(s) => step == Disconnect(s)
    case Located(player, location) => step == Locate(player, location)
    case Packet(buffer) =>
      |buffer| >= HEADER &&
      if buffer[2] + 0x100 * (buffer[3] as int) == 301 then step.RelayChat? && Decoded(buffer[4..], step.f)
      else step == Ignored
  }

  /** The steps are those of the first inputs. */
  ghost predicate TakesAll(inputs: seq<Input>, steps: seq<Step<ChatSession>>) {
    |steps| <= |inputs| && forall i :: 0 <= i < |steps| ==> Takes(inputs[i], steps[i])
  }

  /** What a run changes: the locations, the log of publications and the history of the session set. */
  datatype World = World(store: map<bytes, bytes>, published: seq<Publication>, history: seq<Event<ChatSession>>)

  ghost function WorldOf(redis: RedisClient, manager: ChatSessionManager): World
    reads redis, manager
  {
    World(redis.store, redis.published, manager.history)
  }

  ghost function After(server: Server, w: World, steps: seq<Step<ChatSession>>): World
    requires Runnable(steps)
  {
    World(Store(w.store, steps), w.published + Published(server, w.store, steps),
          w.history + History(server, w.store, steps))
  }

  lemma AfterTwice(server: Server, w: World, xs: seq<Step<ChatSession>>, ys: seq<Step<ChatSession>>)
    requires Runnable(xs) && Runnable(ys)
    ensures Runnable(xs + ys) && After(server, After(server, w, xs), ys) == After(server, w, xs + ys)
  {
    hide Store, Published, History, Runnable;
    RunConcat(server, w.store, xs, ys);
    Regroup(w.published, Published(server, w.store, xs), Published(server, Store(w.store, xs), ys));
    Regroup(w.history, History(server, w.store, xs), History(server, Store(w.store, xs), ys));
  }

  lemma AfterNothing(server: Server, w: World)
    ensures Runnable<ChatSession>([]) && After(server, w, []) == w
  {
    NoSteps(server, w.store);
  }

  lemma AfterOne(server: Server, w: World, step: Step<ChatSession>)
    requires Runnable([step])
    ensures After(server, w, [step]) ==
            World(StoreAfter(w.store, step), w.published + Publications(EffectOf(server, w.store, step)),
                  w.history + EventsOf(server, w.store, step))
  {
    OneStep(server, w.store, step);
  }

  /** The queue of a session that stays connected from the history `h` on. */
  lemma QueueAfter(manager: ChatSessionManager, server: Server, w: World, steps: seq<Step<ChatSession>>, s: ChatSession)
    requires manager.Valid() && Runnable(steps) && manager.history == After(server, w, steps).history
    requires s in manager.known && Member(w.history, s) && NoDisconnect(steps, s)
    ensures s.sendQueue == Outbox(w.history, s) + FramesToAll(server, w.store, steps)
  {
    hide Member, Outbox, NoDisconnect, Runnable, History, FramesToAll;
    DeliveredWhileConnected(w.history, server, w.store, steps, s);
  }

  /**
   * One input, handed to the object it is for: one step of the run, unless a chat aborts the server, which
   * changes nothing, or overruns its send buffer, after which nothing is promised.
   */
  method Serve(input: Input, redis: RedisClient, manager: ChatSessionManager, noticeText: bytes)
    returns (outcome: Outcome, ghost step: Step<ChatSession>)
    requires manager.Valid() && Acceptable(input, manager)
    modifies redis, manager, manager.sessions
    ensures Takes(input, step) && outcome == StepOutcome(step)
    ensures outcome != Overrun ==>
              var joining := if input.Connected? then {input.s} else {};
              && manager.Valid() && manager.known == old(manager.known) + joining
              && manager.sessions <= old(manager.sessions) + joining
    ensures outcome == Aborted ==> WorldOf(redis, manager) == old(WorldOf(redis, manager))
    ensures outcome == Relayed ==>
              && Runnable([step])
              && WorldOf(redis, manager) ==
                After(Server(redis.connected, noticeText), old(WorldOf(redis, manager)), [step])
  {
    hide Decoded, Route, OutcomeOf, Payload, After;
    outcome := Relayed;
    ghost var server, w := Server(redis.connected, noticeText), WorldOf(redis, manager);
    match input {
      case Connected(s) =>
        step := Connect(s);
        s.OnConnected(manager);
      case Disconnected(s) =>
        step := Disconnect(s);
        s.OnDisconnected(manager);
      case Located(player, location) =>
        step := Locate(player, location);
        match location {
          case Some(l) => redis.Set(LocationKey(player), l);
          case None => redis.Del(LocationKey(player));
        }
      case Packet(buffer) =>
        ghost var f;
        outcome, f := HandlePacket(buffer, redis, manager, noticeText);
        step := if IdField(buffer) == SS_RELAY_CHAT then RelayChat(f) else Ignored;
        assert [step][0] == step;
    }
    if outcome == Relayed { AfterOne(server, w, step); }
  }

  ghost function StepOutcome(step: Step<ChatSession>): Outcome {
    if step.RelayChat? then OutcomeOf(step.f) else Relayed
  }

  function Joining(inputs: seq<Input>): set<ChatSession> {
    set i | 0 <= i < |inputs| && inputs[i].Connected? :: inputs[i].s
  }

  /**
   * The server over any sequence of inputs, up to the first packet that stops it: the history of the
   * session set and the log of publications are those of the run, and every session that stays connected
   * has been sent exactly the frames for all sessions. An overrun ends every promise but which packet it was.
   */
  method Run(inputs: seq<Input>, redis: RedisClient, manager: ChatSessionManager, noticeText: bytes)
    returns (outcome: Outcome, ghost steps: seq<Step<ChatSession>>)
    requires manager.Valid() && forall i :: 0 <= i < |inputs| ==> Acceptable(inputs[i], manager)
    modifies redis, manager, manager.sessions, Joining(inputs)
    ensures TakesAll(inputs, steps) && Runnable(steps)
    ensures if outcome == Relayed then |steps| == |inputs| else |steps| < |inputs| && Stops(inputs[|steps|], outcome)
    ensures outcome != Overrun ==>
              && manager.known == old(manager.known) + Joining(inputs[..|steps|])
              && manager.sessions <= old(manager.sessions) + Joining(inputs)
    ensures outcome != Overrun ==>
              && manager.Valid()
              && WorldOf(redis, manager) ==
                After(Server(redis.connected, noticeText), old(WorldOf(redis, manager)), steps)
    ensures outcome != Overrun ==>
              var server, store := Server(redis.connected, noticeText), old(redis.store);
              forall s :: s in old(manager.sessions) && NoDisconnect(steps, s) ==>
                s.sendQueue == old(s.sendQueue) + FramesToAll(server, store, steps)
  {
    hide Takes, After, Payload, FramesToAll, OutcomeOf, Runnable, Member, Outbox;
    ghost var server, w := Server(redis.connected, noticeText), WorldOf(redis, manager);
    steps, outcome := [], Relayed;
    var i := 0;
    AfterNothing(server, w);
    while i < |inputs|
      invariant i == |steps| <= |inputs| && Runnable(steps) && manager.Valid() && outcome == Relayed
      invariant manager.sessions <= old(manager.sessions) + Joining(inputs)
      invariant manager.known == old(manager.known) + Joining(inputs[..i])
      invariant forall j :: i <= j < |inputs| ==> Acceptable(inputs[j], manager)
      invariant forall j :: 0 <= j < i ==> Takes(inputs[j], steps[j])
      invariant WorldOf(redis, manager) == After(server, w, steps)
    {
      ghost var step;
      JoiningNext(inputs, i);
      outcome, step := Serve(inputs[i], redis, manager, noticeText);
      if outcome != Relayed { StoppingPacket(inputs[i], step); break; }
      AfterTwice(server, w, steps, [step]);
      steps, i := steps + [step], i + 1;
    }
    if outcome != Overrun {
      forall s | s in old(manager.sessions) && NoDisconnect(steps, s)
        ensures s.sendQueue == old(s.sendQueue) + FramesToAll(server, w.store, steps)
      {
        QueueAfter(manager, server, w, steps, s);
      }
    }
  }

  lemma JoiningNext(inputs: seq<Input>, i: nat)
    requires i < |inputs|
    ensures Joining(inputs[..i + 1]) == Joining(inputs[..i]) + if inputs[i].Connected? then {inputs[i].s} else {}
  {
    assert forall j :: 0 <= j < i ==> inputs[..i][j] == inputs[j] && inputs[..i + 1][j] == inputs[j];
    assert inputs[..i + 1][i] == inputs[i];
  }

  lemma StoppingPacket(input: Input, step: Step<ChatSession>)
    requires Takes(input, step) && StepOutcome(step) != Relayed
    ensures Stops(input, StepOutcome(step))
  {}

  lemma NoSteps(server: Server, store: map<bytes, bytes>)
    ensures Store<ChatSession>(store, []) == store && Published<ChatSession>(server, store, []) == []
    ensures History<ChatSession>(server, store, []) == []
  {}

  /** A chat whose payload fits no frame, with what becomes of it. */
  ghost predicate Stops(input: Input, outcome: Outcome) {
    && input.Packet? && |input.buffer| >= HEADER && IdField(input.buffer) == SS_RELAY_CHAT
    && outcome != Relayed && exists f :: Decoded(input.buffer[HEADER..], f) && OutcomeOf(f) == outcome
  }
}
