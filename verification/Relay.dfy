// The chat relay: decode SS_RelayChat, copy its five fields into SS_BroadcastChat,
// re-encode, and route by chat type, Redis connection and player location.
module Relay {
  import opened Bytes
  import opened Varints
  import opened Wire
  import opened Utf8
  import opened Codec
  import opened Failures
  import opened Projection
  import opened RoundTrip
  import opened Histories
  import opened Runtime
  import opened ComputedSizes
  import opened Messages
  import opened Sizes
  import opened Framing
  import opened Layout
  import opened ChatMessage
  import opened Sessions

  const CHAT_TYPE_GLOBAL: int := 0
  const CHAT_TYPE_WHISPER: int := 2

  const SS_RELAY_CHAT: nat := 301
  const SS_BROADCAST_CHAT: uint16 := 302

  datatype Fields = Fields(sender: bytes, kind: int32, msg: bytes, target: bytes, partyId: uint64)

  /** A chat message with these fields and nothing unknown. */
  function ChatOf(f: Fields): (m: Msg)
    ensures Valid(ChatSchema(), m)
  {
    Msg([Str(f.sender), Num(f.kind), Str(f.msg), Str(f.target), Num(f.partyId)], [])
  }

  function FieldsOf(m: Msg): (f: Fields)
    requires Valid(ChatSchema(), m)
    ensures ChatOf(f) == Msg(m.vals, [])
  {
    assert forall i :: 0 <= i < 5 ==> ValidVal(ChatSchema().slots[i], m.vals[i]);
    Fields(m.vals[0].s, m.vals[1].n, m.vals[2].s, m.vals[3].s, m.vals[4].n)
  }

  function Payload(f: Fields): bytes {
    Serialize(ChatSchema(), ChatOf(f))
  }

  /** What SerializeToString leaves in the string: nothing if the encoding is longer than INT_MAX. */
  function Stringified(f: Fields): bytes {
    if |Payload(f)| <= INT_MAX then Payload(f) else []
  }

  /** What becomes of a chat when its frame is built. */
  datatype Outcome = Relayed | Overrun | Aborted

  /**
   * A payload of at most 65531 bytes is relayed. Otherwise the size wraps at 16 bits: either the buffer is
   * too short for the header, which is written past its end, or SerializeToArray refuses it and the assert fails.
   */
  function OutcomeOf(f: Fields): (r: Outcome)
    ensures r == Relayed <==> |Payload(f)| <= 65531
  {
    hide Serialize, ComputedSize;
    SizeAgreement(ChatSchema(), ChatOf(f));
    var byteSize := ComputedSize(ChatSchema(), ChatOf(f));
    if byteSize <= MAX_BODY then Relayed
    else if byteSize % 0x1_0000 > MAX_BODY then Overrun
    else Aborted
  }

  /** Up to INT_MAX the outcome can be read off the length of the payload. */
  lemma OutcomeByLength(f: Fields)
    requires |Payload(f)| <= 2147483647
    ensures OutcomeOf(f) ==
            if |Payload(f)| <= 65531 then Relayed
            else if |Payload(f)| % 0x1_0000 > 65531 then Overrun
            else Aborted
  {
    hide Serialize, ComputedSize;
    SizeAgreement(ChatSchema(), ChatOf(f));
  }

  // ---- Routing --------------------------------------------------------------------

  datatype Publication = Publication(channel: bytes, payload: bytes)

  datatype Effect = ToAllSessions | Publish(p: Publication) | Nothing

  function LocationKey(player: bytes): bytes { Ascii("player:loc:") + player }

  function WhisperChannel(location: bytes): bytes { Ascii("chat:whisper:") + location }

  /** The System notice that tells `sender` the target was not found. */
  function Notice(sender: bytes, text: bytes): Fields {
    Fields(Ascii("System"), CHAT_TYPE_WHISPER, text, sender, 0)
  }

  function Route(f: Fields, connected: bool, store: map<bytes, bytes>, noticeText: bytes): Effect {
    if !connected then ToAllSessions
    else if f.kind == CHAT_TYPE_GLOBAL then Publish(Publication(Ascii("chat:global"), Payload(f)))
    else if f.kind == CHAT_TYPE_WHISPER then
      if LocationKey(f.target) in store then
        Publish(Publication(WhisperChannel(store[LocationKey(f.target)]), Payload(f)))
      else if LocationKey(f.sender) in store then
        Publish(Publication(WhisperChannel(store[LocationKey(f.sender)]), Stringified(Notice(f.sender, noticeText))))
      else Nothing
    else ToAllSessions
  }

  /** Redis as a key-value map and a log of publications; whether it is connected is fixed at startup. */
  class RedisClient {
    const connected: bool
    var store: map<bytes, bytes>
    var published: seq<Publication>

    constructor (connected: bool)
      ensures this.connected == connected && store == map[] && published == []
    {
      this.connected := connected;
      store, published := map[], [];
    }

    function Get(key: bytes): Option<bytes>
      reads this`store
    {
      if key in store then Some(store[key]) else None
    }

    method Set(key: bytes, value: bytes)
      modifies this`store
      ensures store == old(store)[key := value]
    {
      store := store[key := value];
    }

    method Del(key: bytes)
      modifies this`store
      ensures store == old(store) - {key}
    {
      store := store - {key};
    }

    method PublishTo(channel: bytes, payload: bytes)
      modifies this`published
      ensures published == old(published) + [Publication(channel, payload)]
    {
      published := published + [Publication(channel, payload)];
    }
  }

  function Publications(e: Effect): seq<Publication> {
    match e
    case Publish(p) => [p]
    case _ => []
  }

  function Events<S>(e: Effect, frame: bytes): seq<Event<S>> {
    if e.ToAllSessions? then [Broadcast(frame)] else []
  }

  /**
   * The fields the handler goes on with: those of the parsed message, or of what a failed parse left
   * behind. Only input that ends inside a record, and groups, leave them open.
   */
  ghost predicate Decoded(body: bytes, f: Fields) {
    var blank := Default(ChatSchema());
    && (Parse(ChatSchema(), blank, body).Some? ==> f == FieldsOf(Parse(ChatSchema(), blank, body).value))
    && (AfterFailure(ChatSchema(), blank, body).Some? ==> f == FieldsOf(AfterFailure(ChatSchema(), blank, body).value))
  }

  /** SerializeToString of a chat with these fields, and the size it computed. */
  method SerializeChat(f: Fields) returns (byteSize: nat, payload: bytes)
    ensures payload == Stringified(f)
    ensures byteSize == ComputedSize(ChatSchema(), ChatOf(f))
    ensures byteSize <= INT_MAX ==> byteSize == |payload|
  {
    hide Serialize, ComputedSize, Fits;
    var chat := new Chat();
    chat.sender, chat.kind, chat.msg := f.sender, f.kind, f.msg;
    chat.target, chat.partyId := f.target, f.partyId;
    assert chat.View() == ChatOf(f);
    byteSize := chat.ByteSizeLong();
    SizeAgreement(ChatSchema(), ChatOf(f));
    payload := [];
    if byteSize <= INT_MAX {
      payload := chat.InternalSerialize([]);
      assert [] + Payload(f) == Payload(f);
    }
  }

  /** The routing of a decoded message: exactly the effects of `Route`, on Redis and on the session set. */
  method RouteChat(
    f: Fields, payload: bytes, frame: bytes, redis: RedisClient, manager: ChatSessionManager, noticeText: bytes
  )
    requires manager.Valid() && payload == Payload(f)
    modifies redis`published, manager`history, manager.sessions
    ensures manager.Valid()
    ensures var e := Route(f, redis.connected, redis.store, noticeText);
            && redis.published == old(redis.published) + Publications(e)
            && manager.history == old(manager.history) + Events(e, frame)
  {
    assert redis.published + [] == redis.published && manager.history + [] == manager.history;
    if !redis.connected {
      manager.BroadcastAll(frame);
      return;
    }
    if f.kind == CHAT_TYPE_GLOBAL {
      redis.PublishTo(Ascii("chat:global"), payload);
    } else if f.kind == CHAT_TYPE_WHISPER {
      var val := redis.Get(LocationKey(f.target));
      if val.Some? {
        redis.PublishTo(WhisperChannel(val.value), payload);
      } else {
        var _, errPayload := SerializeChat(Notice(f.sender, noticeText));
        var senderLoc := redis.Get(LocationKey(f.sender));
        if senderLoc.Some? {
          redis.PublishTo(WhisperChannel(senderLoc.value), errPayload);
        }
      }
    } else {
      manager.BroadcastAll(frame);
    }
  }

  /** The five fields, each behind its tag byte, in the order of their numbers: that is the payload. */
  function ChatFields(f: Fields): (r: bytes)
    ensures r == Payload(f)
  {
    hide Serialize, StringField, VarintField, UnknownFields;
    ChatLayout(f.sender, f.kind, f.msg, f.target, f.partyId, []);
    NothingUnknown();
    var r := StringField(10, f.sender) + VarintField(16, f.kind) + StringField(26, f.msg) + StringField(34, f.target) +
             VarintField(40, f.partyId);
    assert r + [] == r;
    r
  }

  lemma NothingUnknown()
    ensures UnknownFields([]) == []
  {}

  /** Length and id 302 in front of a body. */
  function Headed(body: bytes): (r: bytes)
    requires |body| <= 65531
    ensures r == Frame(SS_BROADCAST_CHAT, body)
  {
    FrameBytes(SS_BROADCAST_CHAT, body);
    [(4 + |body|) % 0x100, (4 + |body|) / 0x100, 0x2E, 0x01] + body
  }

  /** The chat as it goes to a session: length, id and the five fields, byte by byte. */
  function BroadcastFrame(f: Fields): (r: bytes)
    requires |Payload(f)| <= 65531
    ensures r == Frame(SS_BROADCAST_CHAT, Payload(f))
  {
    hide Payload, ChatFields, Frame, Headed;
    Headed(ChatFields(f))
  }

  /**
   * Handle_SS_RelayChat on one packet. The result of the parse is ignored: after a failed parse the five
   * fields it left behind are relayed all the same. The frame is built first, so an abort comes before
   * anything is sent. After an overrun of the send buffer nothing is promised.
   */
  method HandleRelayChat(buffer: bytes, redis: RedisClient, manager: ChatSessionManager, noticeText: bytes)
    returns (outcome: Outcome, ghost f: Fields)
    requires manager.Valid() && |buffer| >= HEADER
    modifies redis`published, manager`history, manager.sessions
    ensures Decoded(buffer[HEADER..], f)
    ensures outcome == OutcomeOf(f)
    ensures outcome != Overrun ==> manager.Valid()
    ensures outcome == Aborted ==>
              && redis.published == old(redis.published) && manager.history == old(manager.history)
    ensures outcome == Relayed ==>
              var e := Route(f, redis.connected, redis.store, noticeText);
              && redis.published == old(redis.published) + Publications(e)
              && manager.history == old(manager.history) + Events(e, BroadcastFrame(f))
  {
    hide Parse, AfterFailure, Route, Serialize, ComputedSize;
    var pkt := new Chat();
    var parsed := pkt.InternalParse(buffer[HEADER..]);
    f := Fields(pkt.sender, pkt.kind, pkt.msg, pkt.target, pkt.partyId);
    assert pkt.View().vals == ChatOf(f).vals;
    var broadcast := Fields(pkt.sender, pkt.kind, pkt.msg, pkt.target, pkt.partyId);
    var byteSize, payload := SerializeChat(broadcast);
    var sent := MakeSendBuffer(byteSize, payload, SS_BROADCAST_CHAT);
    match sent
    case HeaderOverrun => return Overrun, f;
    case SerializeRefused => return Aborted, f;
    case Built(frame) =>
      assert OutcomeOf(f) == Relayed;
      RouteChat(broadcast, payload, frame[..], redis, manager, noticeText);
      return Relayed, f;
  }

  /** HandlePacket: any other packet id is only logged. */
  method HandlePacket(buffer: bytes, redis: RedisClient, manager: ChatSessionManager, noticeText: bytes)
    returns (outcome: Outcome, ghost f: Fields)
    requires manager.Valid() && |buffer| >= HEADER
    modifies redis`published, manager`history, manager.sessions
    ensures outcome != Overrun ==> manager.Valid()
    ensures var relays := buffer[2] + 0x100 * (buffer[3] as int) == 301;
            && outcome == (if relays then OutcomeOf(f) else Relayed)
            && (relays ==> Decoded(buffer[HEADER..], f))
            && (outcome == Aborted || !relays ==>
                  && redis.published == old(redis.published) && manager.history == old(manager.history))
            && (relays && outcome == Relayed ==>
                  var e := Route(f, redis.connected, redis.store, noticeText);
                  && redis.published == old(redis.published) + Publications(e)
                  && manager.history == old(manager.history) + Events(e, BroadcastFrame(f)))
  {
    hide Decoded, Route, Events;
    if IdField(buffer) == SS_RELAY_CHAT {
      outcome, f := HandleRelayChat(buffer, redis, manager, noticeText);
    } else {
      outcome, f := Relayed, Fields([], 0, [], [], 0);
    }
  }

  // ---- What a relay means to the receivers ---------------------------------------------

  predicate FieldsText(f: Fields) {
    ValidUtf8(f.sender) && ValidUtf8(f.msg) && ValidUtf8(f.target)
  }

  /** Receivers decode a relayed payload to the same five fields, exactly when its strings are UTF-8. */
  lemma {:induction false} PayloadDecodes(f: Fields)
    requires |Payload(f)| <= MAX_LEN
    ensures Parse(ChatSchema(), Default(ChatSchema()), Payload(f)) == if FieldsText(f) then Some(ChatOf(f)) else None
  {
    hide Serialize, Parse;
    FlatSchemasOk();
    SmallFits(ChatSchema(), ChatOf(f), MAX_LEN);
    RoundTrips(ChatSchema(), ChatOf(f));
    ChatText(ChatOf(f));
  }

  lemma ChatText(m: Msg)
    requires Valid(ChatSchema(), m)
    ensures TextOk(ChatSchema(), m) <==> FieldsText(FieldsOf(m))
  {
    var slots := ChatSchema().slots;
    assert TextOkVal(slots[0], m.vals[0]) <==> ValidUtf8(m.vals[0].s);
    assert TextOkVal(slots[2], m.vals[2]) <==> ValidUtf8(m.vals[2].s);
    assert TextOkVal(slots[3], m.vals[3]) <==> ValidUtf8(m.vals[3].s);
    assert TextOkVal(slots[1], m.vals[1]) && TextOkVal(slots[4], m.vals[4]);
  }

  /** What was relayed is the encoding of the incoming message's known fields; its unknown fields are dropped. */
  lemma {:induction false} RelayDropsUnknown(m: Msg)
    requires Valid(ChatSchema(), m)
    ensures Payload(FieldsOf(m)) == Emit(KnownUpTo(ChatSchema(), m, 5))
    ensures Payload(FieldsOf(m)) + Emit(m.unknown) == Serialize(ChatSchema(), m)
  {
    hide SlotBytes, ValidVal, EmitRecord;
    var c := ChatOf(FieldsOf(m));
    SameKnownRecords(m, c, 5);
    assert KnownUpTo(ChatSchema(), c, 5) + [] == KnownUpTo(ChatSchema(), c, 5);
    EmitConcat(KnownUpTo(ChatSchema(), m, 5), m.unknown);
  }

  lemma {:induction false} SameKnownRecords(m: Msg, c: Msg, k: nat)
    requires Valid(ChatSchema(), m) && Valid(ChatSchema(), c) && m.vals == c.vals && k <= 5
    ensures KnownUpTo(ChatSchema(), m, k) == KnownUpTo(ChatSchema(), c, k)
  {
    hide Valid, SlotRecords;
    if k > 0 { SameKnownRecords(m, c, k - 1); }
  }

  /**
   * The relay of a valid framed SS_RelayChat: the five fields are the sender's, the frame is never too
   * long, and every receiver decodes the payload to those fields.
   */
  lemma {:induction false} ValidFrameIsRelayed(m: Msg)
    requires Valid(ChatSchema(), m) && TextOk(ChatSchema(), m) && |Serialize(ChatSchema(), m)| <= MAX_BODY
    ensures var body := Frame(SS_RELAY_CHAT, Serialize(ChatSchema(), m))[HEADER..];
            Parse(ChatSchema(), Default(ChatSchema()), body) == Some(m)
    ensures |Payload(FieldsOf(m))| <= MAX_BODY
    ensures Parse(ChatSchema(), Default(ChatSchema()), Payload(FieldsOf(m))) == Some(Msg(m.vals, []))
  {
    hide Serialize, Parse, ValidVal, Emit, KnownUpTo, TextOk;
    FlatSchemasOk();
    SmallFits(ChatSchema(), m, MAX_LEN);
    RoundTrips(ChatSchema(), m);
    RelayDropsUnknown(m);
    ChatText(m);
    PayloadDecodes(FieldsOf(m));
  }

  /** After a successful parse of arbitrary bytes, what is relayed is accepted by every receiver. */
  lemma {:induction false} ParsedChatIsAccepted(s: bytes, m: Msg)
    requires Parse(ChatSchema(), Default(ChatSchema()), s) == Some(m) && |s| <= MAX_BODY
    ensures Valid(ChatSchema(), m) && |Payload(FieldsOf(m))| <= |s| + 5
    ensures Parse(ChatSchema(), Default(ChatSchema()), Payload(FieldsOf(m))) == Some(Msg(m.vals, []))
  {
    hide Serialize, Parse, ValidVal, KnownUpTo, Emit, TextOk;
    var sc := ChatSchema();
    DefaultTextOk(sc);
    ParseKeepsTextOk(sc, Default(sc), s);
    ReencodingBound(sc, s, m);
    RelayDropsUnknown(m);
    ChatText(m);
    ChatGrowth();
    PayloadDecodes(FieldsOf(m));
  }

  /**
   * So a body that parses is relayed unless it has at least 65527 bytes, and the relay aborts only at the
   * full 65531; in between, a payload that grows too long overruns the send buffer.
   */
  lemma {:induction false} ParsedChatOutcome(s: bytes, m: Msg)
    requires Parse(ChatSchema(), Default(ChatSchema()), s) == Some(m) && |s| <= MAX_BODY
    ensures Valid(ChatSchema(), m)
    ensures |s| < 65527 ==> OutcomeOf(FieldsOf(m)) == Relayed
    ensures |s| < 65531 ==> OutcomeOf(FieldsOf(m)) != Aborted
  {
    hide Parse, Payload, OutcomeOf, Valid;
    ParsedChatIsAccepted(s, m);
    OutcomeByLength(FieldsOf(m));
  }

  // ---- What is relayed after a failed parse -------------------------------------------------

  /** The parse stops at a whole string record whose string is not UTF-8. */
  predicate FailsOnText(sc: Schema, m: Msg, s: bytes)
    requires Valid(sc, m)
    decreases |s|
  {
    ReadRecord(s).Some? &&
    var (r, n) := ReadRecord(s).value;
    ReadRecordOk(s);
    match Apply(sc, m, r)
    case Some(m') => FailsOnText(sc, m', s[n..])
    case None => Find(sc, r).Some? && sc.slots[Find(sc, r).value].Text?
  }

  /**
   * The relay of a packet whose parse failed. After a bad string the payload fails to parse wherever it
   * arrives (a Redis subscriber then drops it); after any other failure it is accepted like any chat.
   */
  lemma {:induction false} BadTextIsForwardedInVain(s: bytes, f: Fields)
    requires AfterFailure(ChatSchema(), Default(ChatSchema()), s).Some? && Decoded(s, f) && |Payload(f)| <= MAX_BODY
    ensures Parse(ChatSchema(), Default(ChatSchema()), s).None?
    ensures Parse(ChatSchema(), Default(ChatSchema()), Payload(f)) ==
            if FailsOnText(ChatSchema(), Default(ChatSchema()), s) then None else Some(ChatOf(f))
  {
    hide Serialize, Parse, TextOk, FailsOnText, AfterFailure;
    DefaultTextOk(ChatSchema());
    FailureIsFailure(ChatSchema(), Default(ChatSchema()), s);
    BadTextStays(Default(ChatSchema()), s);
    ChatText(AfterFailure(ChatSchema(), Default(ChatSchema()), s).value);
    PayloadDecodes(f);
  }

  lemma {:induction false} BadTextStays(m: Msg, s: bytes)
    requires Valid(ChatSchema(), m) && TextOk(ChatSchema(), m) && AfterFailure(ChatSchema(), m, s).Some?
    ensures TextOk(ChatSchema(), AfterFailure(ChatSchema(), m, s).value) <==> !FailsOnText(ChatSchema(), m, s)
    decreases |s|
  {
    hide TextOk, ReadRecord, Refused, ReadTag, Valid, ChatSchema, SlotStep, LeftInSlot, AfterRefused, Find;
    var sc := ChatSchema();
    if ReadRecord(s).Some? {
      WholeRecord(sc, m, s);
      LoopTurn(sc, m, s);
      var (r, n) := ReadRecord(s).value;
      TextAfterRecord(m, r);
      if Apply(sc, m, r).Some? { BadTextStays(Apply(sc, m, r).value, s[n..]); }
    } else {
      TextAfterTag(m, s);
    }
  }

  /** A record that is applied keeps the strings valid; the only one that is rejected is a bad string, and it stays. */
  lemma {:induction false} TextAfterRecord(m: Msg, r: Record)
    requires Valid(ChatSchema(), m) && TextOk(ChatSchema(), m) && RecordOk(r)
    ensures match Apply(ChatSchema(), m, r)
            case Some(m') => TextOk(ChatSchema(), m')
            case None =>
              var i := Find(ChatSchema(), r).value;
              && ChatSchema().slots[i].Text?
              && LeftInSlot(ChatSchema().slots[i], m.vals[i], r).Some?
              && !TextOk(ChatSchema(), Put(m, i, LeftInSlot(ChatSchema().slots[i], m.vals[i], r).value))
  {
    var sc := ChatSchema();
    match Find(sc, r)
    case None => SameText(m, m.(unknown := m.unknown + [r]));
    case Some(i) =>
      assert ValidVal(sc.slots[i], m.vals[i]) && !sc.slots[i].Packed? && !sc.slots[i].Repeated? && !sc.slots[i].Choice?;
      match SlotStep(sc.slots[i], m.vals[i], r)
      case Some(v) => PutText(m, i, v);
      case None => PutText(m, i, Str(r.body.s));
  }

  lemma SameText(m: Msg, c: Msg)
    requires Valid(ChatSchema(), m) && Valid(ChatSchema(), c) && m.vals == c.vals
    ensures TextOk(ChatSchema(), m) <==> TextOk(ChatSchema(), c)
  {
    forall i | 0 <= i < 5
      ensures TextOkVal(ChatSchema().slots[i], m.vals[i]) <==> TextOkVal(ChatSchema().slots[i], c.vals[i])
    {}
  }

  lemma PutText(m: Msg, i: nat, v: Val)
    requires Valid(ChatSchema(), m) && TextOk(ChatSchema(), m) && i < 5 && ValidVal(ChatSchema().slots[i], v)
    ensures Valid(ChatSchema(), Put(m, i, v))
    ensures TextOk(ChatSchema(), Put(m, i, v)) <==> TextOkVal(ChatSchema().slots[i], v)
  {
    assert Put(m, i, v).vals[i] == v;
    forall j | 0 <= j < 5 && j != i ensures TextOkVal(ChatSchema().slots[j], Put(m, i, v).vals[j]) {
      assert Put(m, i, v).vals[j] == m.vals[j];
    }
  }

  /** A failure in front of a value leaves no bad string. */
  lemma {:induction false} TextAfterTag(m: Msg, s: bytes)
    requires Valid(ChatSchema(), m) && TextOk(ChatSchema(), m) && ReadRecord(s).None?
    requires AfterFailure(ChatSchema(), m, s).Some?
    ensures TextOk(ChatSchema(), AfterFailure(ChatSchema(), m, s).value)
  {
    hide TextOk, Refused;
    var sc, left := ChatSchema(), AfterFailure(ChatSchema(), m, s).value;
    if left != m {
      var (tag, n) := ReadTag(s).value;
      match FindBelow(sc.slots, tag / 8, tag % 8, |sc.slots|)
      case None => SameText(m, left);
      case Some(i) =>
        var v := OnRefused(sc.slots[i], m.vals[i], tag / 8, tag % 8);
        KeptText(m, i, tag / 8, tag % 8);
        PutText(m, i, v);
    }
  }

  lemma KeptText(m: Msg, i: nat, num: nat, wireType: nat)
    requires Valid(ChatSchema(), m) && TextOk(ChatSchema(), m) && i < 5 && Accepts(ChatSchema().slots[i], num, wireType)
    ensures TextOkVal(ChatSchema().slots[i], OnRefused(ChatSchema().slots[i], m.vals[i], num, wireType))
  {
    assert TextOkVal(ChatSchema().slots[i], m.vals[i]);
    assert !ChatSchema().slots[i].Packed? && !ChatSchema().slots[i].Repeated? && !ChatSchema().slots[i].Choice?;
  }

  lemma ChatGrowth()
    ensures GrowthUpTo(ChatSchema(), 5) == 5 && AllScalar(ChatSchema()) && |ChatSchema().slots| == 5
  {
    assert GrowthUpTo(ChatSchema(), 3) == 5;
  }

  // ---- Three packets the handler can meet ------------------------------------------------

  /** A record of type 1 to the end of its string. */
  lemma {:induction false} SenderRecord(t: bytes)
    requires |t| <= MAX_LEN
    ensures ReadRecord(EmitRecord(Record(1, Len(t)))) == Some((Record(1, Len(t)), |EmitRecord(Record(1, Len(t)))|))
    ensures Find(ChatSchema(), Record(1, Len(t))) == Some(0) && ChatSchema().slots[0] == Text(1)
  {
    hide EmitRecord, ReadRecord;
    var r := Record(1, Len(t));
    ReadRecordEmitted(r, []);
    assert EmitRecord(r) + [] == EmitRecord(r);
    FlatSchemasOk();
    FindSlot(ChatSchema(), 0, r);
  }

  /** A sender that is no UTF-8: the parse fails, and exactly the incoming bytes are relayed. */
  lemma {:induction false} BadTextPacket(t: bytes)
    requires |t| <= MAX_LEN && !ValidUtf8(t)
    ensures var s, f := EmitRecord(Record(1, Len(t))), Fields(t, 0, [], [], 0);
            && FailsOnText(ChatSchema(), Default(ChatSchema()), s)
            && AfterFailure(ChatSchema(), Default(ChatSchema()), s) == Some(ChatOf(f))
            && Payload(f) == s
  {
    hide EmitRecord, ReadRecord, Valid, Serialize, KnownUpTo;
    var sc, s, r, f := ChatSchema(), EmitRecord(Record(1, Len(t))), Record(1, Len(t)), Fields(t, 0, [], [], 0);
    SenderRecord(t);
    WholeRecord(sc, Default(sc), s);
    assert AfterRecord(sc, Default(sc), s).value.vals == ChatOf(f).vals;
    PayloadOfSender(t, 0);
    NumberBytes(2, Enum, 0);
    assert s + [] == s;
  }

  /** The payload of a chat with a sender and a type. */
  lemma {:induction false} PayloadOfSender(t: bytes, kind: int32)
    requires t != []
    ensures Payload(Fields(t, kind, [], [], 0)) == EmitRecord(Record(1, Len(t))) + SlotBytes(Number(2, Enum), Num(kind))
  {
    hide SlotBytes, EmitRecord, Serialize, Written;
    var sc, m := ChatSchema(), ChatOf(Fields(t, kind, [], [], 0));
    NoBytes();
    TextBytes(1, t);
    WriteStart(sc, m, []);
    WriteSlot(sc, m, 0, [], [], SlotBytes(Text(1), Str(t)));
    var out := SlotBytes(Text(1), Str(t)) + SlotBytes(Number(2, Enum), Num(kind));
    WriteSlot(sc, m, 1, [], SlotBytes(Text(1), Str(t)), out);
    assert out == out + [];
    WriteSlot(sc, m, 2, [], out, out);
    WriteSlot(sc, m, 3, [], out, out);
    WriteSlot(sc, m, 4, [], out, out);
    WriteEnd(sc, m, [], out);
  }

  lemma NoBytes()
    ensures SlotBytes(Text(3), Str([])) == [] && SlotBytes(Text(4), Str([])) == []
    ensures SlotBytes(Number(5, UInt64), Num(0)) == []
  {
    TextBytes(3, []);
    TextBytes(4, []);
    NumberBytes(5, UInt64, 0);
  }

  /** The shortest such packet: the byte FF as the sender. No shorter input fails on a string. */
  lemma {:induction false} BadBytePacket(s: bytes)
    ensures EmitRecord(Record(1, Len([0xFF]))) == [10, 1, 0xFF] && !ValidUtf8([0xFF])
    ensures FailsOnText(ChatSchema(), Default(ChatSchema()), s) ==> |s| >= 3
  {
    assert EncodeVarint(1) == [1] && EncodeVarint(10) == [10];
    if FailsOnText(ChatSchema(), Default(ChatSchema()), s) { BadTextIsLong(ChatSchema(), Default(ChatSchema()), s); }
  }

  lemma {:induction false} BadTextIsLong(sc: Schema, m: Msg, s: bytes)
    requires Valid(sc, m) && FailsOnText(sc, m, s)
    ensures |s| >= 3
    decreases |s|
  {
    hide ReadTag, ReadRecord;
    var (r, n) := ReadRecord(s).value;
    ReadRecordOk(s);
    match Apply(sc, m, r)
    case Some(m') => BadTextIsLong(sc, m', s[n..]);
    case None =>
      var i := Find(sc, r).value;
      assert Accepts(sc.slots[i], r.num, WireType(r.body)) && ValidVal(sc.slots[i], m.vals[i]);
      assert SlotStep(sc.slots[i], m.vals[i], r) == None && ValidUtf8([]);
      LongerThanText(s);
  }

  lemma LongerThanText(s: bytes)
    requires ReadRecord(s).Some? && ReadRecord(s).value.0.body.Len?
    ensures |s| >= 2 + |ReadRecord(s).value.0.body.s|
  {}

  /** A sender followed by a tag of 0 and anything at all: the parse fails, and the sender is relayed. */
  lemma {:induction false} ZeroTagPacket(t: bytes, rest: bytes)
    requires |t| <= MAX_LEN && ValidUtf8(t)
    ensures var s, f := EmitRecord(Record(1, Len(t))) + ([0] + rest), Fields(t, 0, [], [], 0);
            && !FailsOnText(ChatSchema(), Default(ChatSchema()), s)
            && AfterFailure(ChatSchema(), Default(ChatSchema()), s) == Some(ChatOf(f))
  {
    hide EmitRecord, Valid;
    var sc, r, f := ChatSchema(), Record(1, Len(t)), Fields(t, 0, [], [], 0);
    var xs, ys := EmitRecord(r), [0] + rest;
    SenderParses(t, Default(sc));
    assert Put(Default(sc), 0, Str(t)).vals == ChatOf(f).vals;
    FailureAfterPrefix(sc, Default(sc), xs, ys);
    assert ReadTag(ys) == Some((0, 1));
    NoTextFailure(xs, ys, Default(sc));
  }

  lemma {:induction false} NoTextFailure(xs: bytes, ys: bytes, m: Msg)
    requires Valid(ChatSchema(), m) && Parse(ChatSchema(), m, xs).Some? && ReadRecord(ys).None?
    ensures !FailsOnText(ChatSchema(), m, xs + ys)
    decreases |xs|
  {
    hide SlotStep, Valid, ReadRecord, ChatSchema, Find;
    if xs == [] {
      assert xs + ys == ys;
    } else {
      LoopTurn(ChatSchema(), m, xs);
      ReadRecordStable(xs, ys);
      var (r, k) := ReadRecord(xs).value;
      assert (xs + ys)[k..] == xs[k..] + ys;
      NoTextFailure(xs[k..], ys, Apply(ChatSchema(), m, r).value);
    }
  }

  lemma {:induction false} SenderParses(t: bytes, m: Msg)
    requires |t| <= MAX_LEN && ValidUtf8(t) && Valid(ChatSchema(), m)
    ensures Parse(ChatSchema(), m, EmitRecord(Record(1, Len(t)))) == Some(Put(m, 0, Str(t)))
  {
    hide EmitRecord, ReadRecord, Valid, ValidUtf8;
    var sc, s, r := ChatSchema(), EmitRecord(Record(1, Len(t))), Record(1, Len(t));
    SenderRecord(t);
    LoopTurn(sc, m, s);
    assert s[|s|..] == [] && Tokenise([]) == Some([]);
  }

  const NEGATIVE_TYPE: bytes := [16, 0xFF, 0xFF, 0xFF, 0xFF, 0x0F]

  lemma {:induction false} NegativeTypeParses(m: Msg)
    requires Valid(ChatSchema(), m)
    ensures Parse(ChatSchema(), m, NEGATIVE_TYPE) == Some(Put(m, 1, Num(-1)))
  {
    hide Valid;
    var sc, s, r := ChatSchema(), NEGATIVE_TYPE, Record(2, Varint(0xFFFF_FFFF));
    NegativeTypeRecord(s);
    FlatSchemasOk();
    FindSlot(sc, 1, r);
    assert sc.slots[1] == Number(2, Enum);
    LoopTurn(sc, m, s);
    assert s[6..] == [] && Tokenise([]) == Some([]);
  }

  lemma NegativeTypeSize()
    ensures |SlotBytes(Number(2, Enum), Num(-1))| == 11
  {
    hide SlotBytes, EncodeVarint;
    NumberSlotSize(2, Enum, -1);
    Fits64(TWO_64 - 1);
    SizeBound(TWO_64 - 1, 9);
    Powers();
  }

  lemma NegativeTypeRecord(s: bytes)
    requires s == [16, 0xFF, 0xFF, 0xFF, 0xFF, 0x0F]
    ensures ReadRecord(s) == Some((Record(2, Varint(0xFFFF_FFFF)), 6))
  {
    assert DecodeVarint(s[5..], 6) == Some((0x0F, 1));
    assert s[4..][1..] == s[5..] && DecodeVarint(s[4..], 7) == Some((0x7FF, 2));
    assert s[3..][1..] == s[4..] && DecodeVarint(s[3..], 8) == Some((0x3_FFFF, 3));
    assert s[2..][1..] == s[3..] && DecodeVarint(s[2..], 9) == Some((0x1FF_FFFF, 4));
    assert s[1..][1..] == s[2..] && DecodeVarint(s[1..], 10) == Some((0xFFFF_FFFF, 5));
  }

  /** The bound of five bytes is reached: a negative type spelled in five bytes is relayed in ten. */
  lemma {:induction false} GrowthIsReached(t: bytes)
    requires t != [] && |t| <= MAX_LEN && ValidUtf8(t)
    ensures var s, f := EmitRecord(Record(1, Len(t))) + NEGATIVE_TYPE, Fields(t, -1, [], [], 0);
            && Parse(ChatSchema(), Default(ChatSchema()), s) == Some(ChatOf(f))
            && |Payload(f)| == |s| + 5
  {
    hide EmitRecord, Valid, Serialize, SlotBytes, ValidUtf8, Parse;
    var sc, xs, f := ChatSchema(), EmitRecord(Record(1, Len(t))), Fields(t, -1, [], [], 0);
    SenderParses(t, Default(sc));
    NegativeTypeParses(Put(Default(sc), 0, Str(t)));
    assert Put(Put(Default(sc), 0, Str(t)), 1, Num(-1)).vals == ChatOf(f).vals;
    ParseTwice(xs, NEGATIVE_TYPE, Default(sc));
    PayloadOfSender(t, -1);
    NegativeTypeSize();
  }

  lemma ParseTwice(xs: bytes, ys: bytes, m: Msg)
    requires Valid(ChatSchema(), m) && Parse(ChatSchema(), m, xs).Some?
    ensures Parse(ChatSchema(), m, xs + ys) == Parse(ChatSchema(), Parse(ChatSchema(), m, xs).value, ys)
  {
    ParseConcat(ChatSchema(), m, xs, ys);
  }

  lemma LongSenderSize(t: bytes)
    requires 0x4000 <= |t| < 0x1_0000
    ensures |EmitRecord(Record(1, Len(t)))| == |t| + 4
  {
    LenRecordSize(1, t);
    Powers();
    assert Pow128(3) == 0x20_0000;
    SizeBound(|t|, 2);
    SizeBound(|t|, 3);
  }

  /** A body of `n` bytes that parses and ends so. */
  ghost predicate Reaches(n: nat, outcome: Outcome) {
    exists s: bytes, m: Msg ::
      && |s| == n && Parse(ChatSchema(), Default(ChatSchema()), s) == Some(m)
      && Valid(ChatSchema(), m) && OutcomeOf(FieldsOf(m)) == outcome
  }

  /** And with it the abort, at 65531 bytes, and before that the overrun, from 65527 bytes on. */
  lemma {:induction false} WrapIsReached(n: nat)
    requires 65527 <= n <= 65531
    ensures Reaches(n, if n == 65531 then Aborted else Overrun)
  {
    hide Parse, Payload, EmitRecord, Valid, OutcomeOf;
    var t: bytes := seq(n - 10, i requires 0 <= i < n - 10 => 65);
    AsciiIsValid(t);
    GrowthIsReached(t);
    LongSenderSize(t);
    var f := Fields(t, -1, [], [], 0);
    assert FieldsOf(ChatOf(f)) == f;
    OutcomeByLength(f);
  }

  /** The abort is reached, and only by bodies of the full length. */
  lemma {:induction false} AbortIsReached(n: nat)
    requires n <= MAX_BODY
    ensures Reaches(n, Aborted) <==> n == MAX_BODY
  {
    hide Parse, OutcomeOf, Valid;
    if n == MAX_BODY { WrapIsReached(n); }
    if Reaches(n, Aborted) {
      var s: bytes, m: Msg :|
        && |s| == n && Parse(ChatSchema(), Default(ChatSchema()), s) == Some(m)
        && Valid(ChatSchema(), m) && OutcomeOf(FieldsOf(m)) == Aborted;
      ParsedChatOutcome(s, m);
    }
  }

  // ---- Names in Redis ----------------------------------------------------------------------------

  const SYSTEM: bytes := [83, 121, 115, 116, 101, 109]
  const CHAT_GLOBAL: bytes := [99, 104, 97, 116, 58, 103, 108, 111, 98, 97, 108]
  const CHAT_WHISPER: bytes := [99, 104, 97, 116, 58, 119, 104, 105, 115, 112, 101, 114, 58]
  const PLAYER_LOC: bytes := [112, 108, 97, 121, 101, 114, 58, 108, 111, 99, 58]

  /** The literals of the handler, byte by byte. */
  lemma NameBytes(location: bytes, player: bytes)
    ensures Ascii("System") == SYSTEM && Ascii("chat:global") == CHAT_GLOBAL
    ensures WhisperChannel(location) == CHAT_WHISPER + location && LocationKey(player) == PLAYER_LOC + player
  {}

  /** Every location has a whisper channel of its own, and none is the global channel. */
  lemma {:induction false} WhisperChannelsDiffer(a: bytes, b: bytes)
    ensures WhisperChannel(a) == WhisperChannel(b) <==> a == b
    ensures WhisperChannel(a) != Ascii("chat:global")
    ensures WhisperChannel(a)[..13] == CHAT_WHISPER && WhisperChannel(a)[13..] == a
  {
    NameBytes(a, []);
    NameBytes(b, []);
    assert (CHAT_WHISPER + a)[13..] == a && (CHAT_WHISPER + b)[13..] == b;
    assert (CHAT_WHISPER + a)[5] == 119 && CHAT_GLOBAL[5] == 103;
  }

  // ---- The notice ------------------------------------------------------------------------------

  /**
   * A whisper to a player without a location, from one with a location: the notice is published there, and
   * decodes exactly when its name and text are UTF-8, to the sender System, the type 2, the text as the
   * message and the whisperer as the target.
   */
  lemma {:induction false} NoticeDecodes(f: Fields, store: map<bytes, bytes>, text: bytes)
    requires f.kind == 2 && PLAYER_LOC + f.target !in store && PLAYER_LOC + f.sender in store
    ensures Route(f, true, store, text).Publish?
    ensures var p, notice := Route(f, true, store, text).p, NoticeFields(f.sender, text);
            && p.channel == CHAT_WHISPER + store[PLAYER_LOC + f.sender]
            && p.payload == (if |notice| <= 2147483647 then notice else [])
            && (|notice| <= 2147483631 ==>
                  Parse(ChatSchema(), Default(ChatSchema()), p.payload) ==
                  if ValidUtf8(text) && ValidUtf8(f.sender) then
                    Some(Msg([Str(SYSTEM), Num(2), Str(text), Str(f.sender), Num(0)], []))
                  else None)
  {
    hide Parse, Payload, ValidUtf8, NoticeFields;
    NameBytes([], f.target);
    NameBytes(store[PLAYER_LOC + f.sender], f.sender);
    NoticeBytes(f.sender, text);
    AsciiIsValid(SYSTEM);
    if |NoticeFields(f.sender, text)| <= 2147483631 { PayloadDecodes(Notice(f.sender, text)); }
  }

  /** The notice on the wire: the sender System, the type 2, the text and the whisperer as the target. */
  function NoticeFields(sender: bytes, text: bytes): bytes {
    StringField(10, SYSTEM) + [16, 2] + StringField(26, text) + StringField(34, sender)
  }

  lemma {:induction false} NoticeBytes(sender: bytes, text: bytes)
    ensures Payload(Notice(sender, text)) == NoticeFields(sender, text)
  {
    hide StringField, Payload;
    NameBytes([], []);
    var notice := ChatFields(Notice(sender, text));
    assert EncodeVarint(2) == [2];
    assert VarintField(16, 2) == [16, 2] && VarintField(40, 0) == [];
  }
}
