// The chat sessions: the locked session set, and what every session's send queue
// holds after any interleaving of connects, disconnects and broadcasts.
module Sessions {
  import opened Bytes

  datatype Event<S> = Added(s: S) | Removed(s: S) | Broadcast(buffer: bytes)

  // ---- Histories as values ----------------------------------------------------

  /** Whether `s` is in the session set after the events of `h`. */
  predicate Member<S(==)>(h: seq<Event<S>>, s: S) {
    if h == [] then false
    else
      match h[|h| - 1]
      case Added(t) => t == s || Member(h[..|h| - 1], s)
      case Removed(t) => t != s && Member(h[..|h| - 1], s)
      case Broadcast(_) => Member(h[..|h| - 1], s)
  }

  /** What BroadcastAll has pushed on the queue of `s` in the course of `h`. */
  function Outbox<S(==)>(h: seq<Event<S>>, s: S): seq<bytes> {
    if h == [] then []
    else
      var before := h[..|h| - 1];
      match h[|h| - 1]
      case Broadcast(b) => if Member(before, s) then Outbox(before, s) + [b] else Outbox(before, s)
      case _ => Outbox(before, s)
  }

  function Broadcasts<S>(h: seq<Event<S>>): seq<bytes> {
    if h == [] then []
    else if h[|h| - 1].Broadcast? then Broadcasts(h[..|h| - 1]) + [h[|h| - 1].buffer]
    else Broadcasts(h[..|h| - 1])
  }

  lemma Extend<S>(h: seq<Event<S>>, e: Event<S>)
    ensures (h + [e])[..|h + [e]| - 1] == h && (h + [e])[|h|] == e
  {}

  /** A session is a member exactly when it was added and not removed since. */
  lemma {:induction false} MemberIff<S>(h: seq<Event<S>>, s: S)
    ensures Member(h, s) <==> exists k :: 0 <= k < |h| && h[k] == Added(s) && Removed(s) !in h[k..]
  {
    if h != [] {
      var before, e := h[..|h| - 1], h[|h| - 1];
      MemberIff(before, s);
      if Member(h, s) {
        if e == Added(s) {
          assert h[|h| - 1..] == [e];
        } else {
          var k :| 0 <= k < |before| && before[k] == Added(s) && Removed(s) !in before[k..];
          assert h[k] == Added(s) && h[k..] == before[k..] + [e];
        }
      }
      if k :| 0 <= k < |h| && h[k] == Added(s) && Removed(s) !in h[k..] {
        assert h[k..][|h| - 1 - k] == e;
        if k < |before| { assert before[k] == Added(s) && h[k..] == before[k..] + [e]; }
      }
    }
  }

  // ---- Exactly once, in order ----------------------------------------------------

  /** The positions of the broadcasts made while `s` was a member. */
  function Positions<S(==)>(h: seq<Event<S>>, s: S): (ps: seq<nat>)
    ensures forall i :: 0 <= i < |ps| ==> ps[i] < |h|
  {
    if h == [] then []
    else
      var before := h[..|h| - 1];
      if h[|h| - 1].Broadcast? && Member(before, s) then Positions(before, s) + [|h| - 1] else Positions(before, s)
  }

  /**
   * A queue holds exactly the broadcasts made while its session was a member: one entry for each such
   * position, none for any other, in the order of the history.
   */
  lemma {:induction false} ExactlyOnceInOrder<S>(h: seq<Event<S>>, s: S)
    ensures var ps := Positions(h, s);
            && |ps| == |Outbox(h, s)|
            && (forall i :: 0 <= i < |ps| ==> h[ps[i]] == Broadcast(Outbox(h, s)[i]))
            && (forall i, j :: 0 <= i < j < |ps| ==> ps[i] < ps[j])
            && (forall k: nat :: k in ps <==> k < |h| && h[k].Broadcast? && Member(h[..k], s))
  {
    if h != [] {
      var before, last := h[..|h| - 1], |h| - 1;
      ExactlyOnceInOrder(before, s);
      var ps, qs := Positions(h, s), Positions(before, s);
      assert forall k: nat :: k < last ==> h[..k] == before[..k];
      assert forall k: nat :: k in ps <==> k in qs || (k == last && h[last].Broadcast? && Member(before, s));
    }
  }

  /** `s` stays connected from event `i` to event `j`. */
  predicate Throughout<S(==)>(h: seq<Event<S>>, s: S, i: nat, j: nat)
    requires i <= j <= |h|
  {
    forall k :: i <= k < j ==> Member(h[..k], s)
  }

  /** While connected, a session gets every broadcast. */
  lemma {:induction false} GetsEverything<S>(h: seq<Event<S>>, s: S, i: nat, j: nat)
    requires i <= j <= |h| && Throughout(h, s, i, j)
    ensures Outbox(h[..j], s) == Outbox(h[..i], s) + Broadcasts(h[i..j])
    decreases j
  {
    if i == j {
      assert h[i..j] == [];
      assert Outbox(h[..i], s) + [] == Outbox(h[..i], s);
    } else {
      GetsEverything(h, s, i, j - 1);
      assert h[..j][..j - 1] == h[..j - 1] && h[i..j][..j - 1 - i] == h[i..j - 1];
      var before, sent := Outbox(h[..i], s), Broadcasts(h[i..j - 1]);
      if h[j - 1].Broadcast? {
        assert (before + sent) + [h[j - 1].buffer] == before + (sent + [h[j - 1].buffer]);
      }
    }
  }

  /** Total order: over any interval in which both are connected, two sessions are sent the same sequence. */
  lemma {:induction false} TotalOrder<S>(h: seq<Event<S>>, s: S, t: S, i: nat, j: nat)
    requires i <= j <= |h| && Throughout(h, s, i, j) && Throughout(h, t, i, j)
    ensures |Outbox(h[..i], s)| <= |Outbox(h[..j], s)| && |Outbox(h[..i], t)| <= |Outbox(h[..j], t)|
    ensures Outbox(h[..j], s)[|Outbox(h[..i], s)|..] == Outbox(h[..j], t)[|Outbox(h[..i], t)|..]
  {
    GetsEverything(h, s, i, j);
    GetsEverything(h, t, i, j);
  }

  /** Two sessions never see two broadcasts in opposite orders, whenever they were connected. */
  lemma {:induction false} NoInversion<S>(h: seq<Event<S>>, s: S, t: S, a: nat, b: nat, c: nat, d: nat)
    requires a < |Positions(h, s)| && b < |Positions(h, s)| && c < |Positions(h, t)| && d < |Positions(h, t)|
    requires Positions(h, s)[a] == Positions(h, t)[c] && Positions(h, s)[b] == Positions(h, t)[d]
    ensures a < b <==> c < d
  {
    ExactlyOnceInOrder(h, s);
    ExactlyOnceInOrder(h, t);
  }

  lemma {:induction false} NeverAdded<S>(h: seq<Event<S>>, s: S)
    requires Added(s) !in h
    ensures !Member(h, s) && Outbox(h, s) == []
  {
    if h != [] { NeverAdded(h[..|h| - 1], s); }
  }

  // ---- The objects ---------------------------------------------------------------------

  /** The send side of a Session: a FIFO of buffers. */
  class ChatSession {
    var sendQueue: seq<bytes>

    constructor ()
      ensures sendQueue == []
    {
      sendQueue := [];
    }

    method OnConnected(manager: ChatSessionManager)
      requires manager.Valid() && (this in manager.known || sendQueue == [])
      modifies manager
      ensures manager.Valid() && manager.history == old(manager.history) + [Added(this)]
      ensures manager.sessions == old(manager.sessions) + {this} && manager.known == old(manager.known) + {this}
    {
      manager.Add(this);
    }

    method OnDisconnected(manager: ChatSessionManager)
      requires manager.Valid()
      modifies manager
      ensures manager.Valid() && manager.history == old(manager.history) + [Removed(this)]
      ensures manager.sessions == old(manager.sessions) - {this} && manager.known == old(manager.known)
    {
      manager.Remove(this);
    }

    method Send(buffer: bytes)
      modifies this
      ensures sendQueue == old(sendQueue) + [buffer]
    {
      sendQueue := sendQueue + [buffer];
    }
  }

  class ChatSessionManager {
    var sessions: set<ChatSession>
    ghost var history: seq<Event<ChatSession>>
    ghost var known: set<ChatSession> // every session that was ever connected

    /** After every step: the set and all queues are what the history says. */
    ghost predicate Valid()
      reads this, known
    {
      && sessions <= known
      && (forall s :: s in known ==> (s in sessions <==> Member(history, s)))
      && (forall s :: s in known ==> s.sendQueue == Outbox(history, s))
      && (forall k :: 0 <= k < |history| && history[k].Added? ==> history[k].s in known)
    }

    constructor ()
      ensures Valid() && sessions == {} && history == [] && known == {}
    {
      sessions, history, known := {}, [], {};
    }

    /** Sessions that may connect later are followed from now on. */
    ghost method Expect(newcomers: set<ChatSession>)
      requires Valid() && forall s :: s in newcomers ==> s in known || s.sendQueue == []
      modifies this`known
      ensures Valid() && known == old(known) + newcomers
    {
      forall s | s in newcomers - known
        ensures !Member(history, s) && Outbox(history, s) == []
      {
        NeverAdded(history, s);
      }
      known := known + newcomers;
    }

    /** OnConnected. A session that was never connected has sent nothing yet. */
    method Add(session: ChatSession)
      requires Valid() && (session in known || session.sendQueue == [])
      modifies this
      ensures Valid() && history == old(history) + [Added(session)]
      ensures sessions == old(sessions) + {session} && known == old(known) + {session}
    {
      if session !in known { NeverAdded(history, session); }
      Extend(history, Added(session));
      sessions := sessions + {session};
      history, known := history + [Added(session)], known + {session};
    }

    /** OnDisconnected. */
    method Remove(session: ChatSession)
      requires Valid()
      modifies this
      ensures Valid() && history == old(history) + [Removed(session)]
      ensures sessions == old(sessions) - {session} && known == old(known)
    {
      Extend(history, Removed(session));
      sessions := sessions - {session};
      history := history + [Removed(session)];
    }

    /** The loop over the set, in whatever order it is iterated. */
    method SendToAll(buffer: bytes)
      modifies sessions
      ensures forall s: ChatSession :: s in sessions ==> s.sendQueue == old(s.sendQueue) + [buffer]
    {
      var todo := sessions;
      while todo != {}
        invariant todo <= sessions
        invariant forall s :: s in sessions ==>
                    s.sendQueue == if s in todo then old(s.sendQueue) else old(s.sendQueue) + [buffer]
        decreases |todo|
      {
        var session :| session in todo;
        session.Send(buffer);
        todo := todo - {session};
      }
    }

    /** One locked step: every member gets the buffer, nobody else does. */
    method BroadcastAll(buffer: bytes)
      requires Valid()
      modifies this`history, sessions
      ensures Valid() && history == old(history) + [Broadcast(buffer)]
    {
      SendToAll(buffer);
      Extend(history, Broadcast(buffer));
      history := history + [Broadcast(buffer)];
    }
  }
}
