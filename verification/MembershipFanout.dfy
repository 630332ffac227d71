/** Delivery of membership events across several API instances: the instance that handles the
    change sends the event to its own clients and publishes it; every instance receives what is
    published, skips what it published itself, and sends the rest to its own clients.

    The publish/subscribe channel delivers each published message once to each instance. */
module MembershipFanout {
  import SseHub

  const CLIENT_BUFFER_SIZE := SseHub.CLIENT_BUFFER_SIZE

  type InstanceId = string
  type UserId = string
  type ClientId = nat
  type EventId = nat

  datatype Event = Event(origin: InstanceId, user: UserId)

  /** A connected client: `buffered` frames wait in its channel; `accepted` and `dropped` record what
      was offered to it since it connected; `since` is the first event started after that. */
  datatype Client = Client(user: UserId, buffered: nat, accepted: multiset<EventId>, dropped: multiset<EventId>, since: EventId)

  datatype Instance = Instance(clients: map<ClientId, Client>, inbox: seq<EventId>, maxConns: nat)

  /** The events so far: `unpublished` ones were sent locally by their handler only, `lost` ones are
      those whose publication failed. */
  datatype Board = Board(events: map<EventId, Event>, unpublished: set<EventId>, lost: set<EventId>, next: EventId)

  datatype State = State(instances: map<InstanceId, Instance>, board: Board)

  datatype Step =
    | Connect(at: InstanceId, c: ClientId, user: UserId)
    | Disconnect(at: InstanceId, c: ClientId)
    | Read(at: InstanceId, c: ClientId)
    | Handle(at: InstanceId, user: UserId)
    | Publish(e: EventId)
    | PublishFailed(e: EventId)
    | Receive(at: InstanceId)

  /** A non-blocking send: a full channel drops the frame. */
  function Offer(c: Client, e: EventId): Client {
    if c.buffered < CLIENT_BUFFER_SIZE then c.(buffered := c.buffered + 1, accepted := c.accepted + multiset{e})
    else c.(dropped := c.dropped + multiset{e})
  }

  function OfferIfUser(c: Client, user: UserId, e: EventId): Client {
    if c.user == user then Offer(c, e) else c
  }

  function SendToUser(i: Instance, user: UserId, e: EventId): Instance {
    i.(clients := map c | c in i.clients :: OfferIfUser(i.clients[c], user, e))
  }

  function NewClient(user: UserId, since: EventId): Client {
    Client(user, 0, multiset{}, multiset{}, since)
  }

  /** The board when a handler has sent its event locally. */
  function Started(b: Board, at: InstanceId, user: UserId): Board {
    Board(b.events[b.next := Event(at, user)], b.unpublished + {b.next}, b.lost, b.next + 1)
  }

  /** The subscriber takes the next message and skips it if this instance is its origin. */
  function TakeMessage(i: Instance, at: InstanceId, b: Board): Instance
    requires i.inbox != []
  {
    var e := i.inbox[0];
    var rest := i.(inbox := i.inbox[1..]);
    if e !in b.events || (at != "" && b.events[e].origin != "" && b.events[e].origin == at) then rest
    else SendToUser(rest, b.events[e].user, e)
  }

  /** One instance's part of a step. */
  ghost predicate Local(i: Instance, j: Instance, at: InstanceId, b: Board, step: Step) {
    match step
    case Connect(_, c, user) =>
      c !in i.clients && |i.clients| < i.maxConns && j == i.(clients := i.clients[c := NewClient(user, b.next)])
    case Disconnect(_, c) => c in i.clients && j == i.(clients := i.clients - {c})
    case Read(_, c) =>
      c in i.clients && i.clients[c].buffered > 0 &&
      j == i.(clients := i.clients[c := i.clients[c].(buffered := i.clients[c].buffered - 1)])
    case Receive(_) => i.inbox != [] && j == TakeMessage(i, at, b)
    case _ => false
  }

  ghost predicate Next(s: State, t: State, step: Step) {
    match step
    // The handler sends to the local clients before it publishes.
    case Handle(at, user) =>
      at in s.instances && user != "" &&
      t == State(s.instances[at := SendToUser(s.instances[at], user, s.board.next)], Started(s.board, at, user))
    case Publish(e) =>
      e in s.board.unpublished &&
      t == State(map i | i in s.instances :: s.instances[i].(inbox := s.instances[i].inbox + [e]),
                 s.board.(unpublished := s.board.unpublished - {e}))
    case PublishFailed(e) =>
      e in s.board.unpublished &&
      t == s.(board := s.board.(unpublished := s.board.unpublished - {e}, lost := s.board.lost + {e}))
    case _ =>
      step.at in s.instances && step.at in t.instances &&
      Local(s.instances[step.at], t.instances[step.at], step.at, s.board, step) &&
      t == s.(instances := s.instances[step.at := t.instances[step.at]])
  }

  ghost predicate Init(s: State) {
    && s.board.events == map[] && s.board.unpublished == {} && s.board.lost == {}
    && forall i :: i in s.instances ==> i != "" && s.instances[i].clients == map[] && s.instances[i].inbox == []
  }

  // ----- Counting

  /** How often the event was offered to the client. */
  function Offers(c: Client, e: EventId): nat {
    c.accepted[e] + c.dropped[e]
  }

  /** How often an instance has yet to offer the event to its clients. */
  function Pending(at: InstanceId, waiting: multiset<EventId>, b: Board, e: EventId): nat
    requires e in b.events
  {
    if b.events[e].origin == at then 0 else (if e in b.unpublished then 1 else 0) + waiting[e]
  }

  /** Offered and still to come add up to one for a client of the event's user that was connected
      when the event started, and to at most one for any other client of that user. */
  ghost predicate EventInv(at: InstanceId, waiting: multiset<EventId>, c: Client, b: Board, e: EventId) {
    if e !in b.events || c.user != b.events[e].user then Offers(c, e) == 0
    else
      && Offers(c, e) + Pending(at, waiting, b, e) <= 1
      && (c.since <= e && (b.events[e].origin == at || e !in b.lost) ==> Offers(c, e) + Pending(at, waiting, b, e) == 1)
  }

  ghost predicate ClientInv(at: InstanceId, waiting: multiset<EventId>, c: Client, b: Board) {
    c.buffered <= CLIENT_BUFFER_SIZE && forall e :: EventInv(at, waiting, c, b, e)
  }

  /** Each message waits at most once, and only what was published waits at all. */
  ghost predicate InboxInv(waiting: multiset<EventId>, b: Board) {
    forall e :: e in waiting ==> e in b.events && e !in b.unpublished && e !in b.lost && waiting[e] == 1
  }

  ghost predicate InstanceInv(at: InstanceId, i: Instance, b: Board) {
    && at != "" && InboxInv(multiset(i.inbox), b)
    && (i.clients == map[] || |i.clients| <= i.maxConns)
    && forall c :: c in i.clients ==> ClientInv(at, multiset(i.inbox), i.clients[c], b)
  }

  ghost predicate BoardInv(b: Board) {
    && (forall e :: e in b.events ==> e < b.next)
    && (forall e :: e in b.unpublished ==> e in b.events && e !in b.lost)
    && (forall e :: e in b.lost ==> e in b.events)
  }

  ghost predicate Inv(s: State) {
    BoardInv(s.board) && forall i :: i in s.instances ==> InstanceInv(i, s.instances[i], s.board)
  }

  // ----- Preservation, client by client

  lemma OfferCounts(c: Client, e: EventId, x: EventId)
    ensures Offers(Offer(c, e), x) == Offers(c, x) + if x == e then 1 else 0
  {
  }

  lemma NewClientInv(at: InstanceId, waiting: multiset<EventId>, user: UserId, b: Board)
    requires BoardInv(b) && InboxInv(waiting, b)
    ensures ClientInv(at, waiting, NewClient(user, b.next), b)
  {
    forall e
      ensures EventInv(at, waiting, NewClient(user, b.next), b, e)
    {
      assert e in waiting ==> waiting[e] == 1;
    }
  }

  lemma ReadInv(at: InstanceId, waiting: multiset<EventId>, c: Client, b: Board, buffered: nat)
    requires ClientInv(at, waiting, c, b) && buffered <= c.buffered
    ensures ClientInv(at, waiting, c.(buffered := buffered), b)
  {
    var d := c.(buffered := buffered);
    forall e
      ensures EventInv(at, waiting, d, b, e)
    {
      assert EventInv(at, waiting, c, b, e);
    }
  }

  /** The handler's own instance offers its event at once. */
  lemma HandleHereInv(at: InstanceId, waiting: multiset<EventId>, c: Client, b: Board, user: UserId)
    requires BoardInv(b) && ClientInv(at, waiting, c, b)
    ensures ClientInv(at, waiting, OfferIfUser(c, user, b.next), Started(b, at, user))
  {
    var d, b' := OfferIfUser(c, user, b.next), Started(b, at, user);
    forall e
      ensures EventInv(at, waiting, d, b', e)
    {
      assert EventInv(at, waiting, c, b, e) && b.next !in b.events;
      OfferCounts(c, b.next, e);
    }
  }

  /** Everywhere else the event is now pending. */
  lemma HandleElsewhereInv(at: InstanceId, waiting: multiset<EventId>, c: Client, b: Board, origin: InstanceId, user: UserId)
    requires BoardInv(b) && InboxInv(waiting, b) && ClientInv(at, waiting, c, b) && at != origin
    ensures ClientInv(at, waiting, c, Started(b, origin, user))
  {
    var b' := Started(b, origin, user);
    forall e
      ensures EventInv(at, waiting, c, b', e)
    {
      assert EventInv(at, waiting, c, b, e) && b.next !in b.events;
      assert b.next !in waiting;
    }
  }

  lemma PublishInv(at: InstanceId, waiting: multiset<EventId>, c: Client, b: Board, e0: EventId)
    requires ClientInv(at, waiting, c, b) && e0 in b.unpublished
    ensures ClientInv(at, waiting + multiset{e0}, c, b.(unpublished := b.unpublished - {e0}))
  {
    forall e
      ensures EventInv(at, waiting + multiset{e0}, c, b.(unpublished := b.unpublished - {e0}), e)
    {
      assert EventInv(at, waiting, c, b, e);
    }
  }

  lemma PublishFailedInv(at: InstanceId, waiting: multiset<EventId>, c: Client, b: Board, e0: EventId)
    requires ClientInv(at, waiting, c, b) && e0 in b.unpublished
    ensures ClientInv(at, waiting, c, b.(unpublished := b.unpublished - {e0}, lost := b.lost + {e0}))
  {
    var b' := b.(unpublished := b.unpublished - {e0}, lost := b.lost + {e0});
    forall e
      ensures EventInv(at, waiting, c, b', e)
    {
      assert EventInv(at, waiting, c, b, e);
    }
  }

  /** Taking a message from another instance turns its pending delivery into an offer; a message of
      one's own was never pending. */
  lemma ReceiveInv(at: InstanceId, waiting: multiset<EventId>, c: Client, b: Board, e0: EventId)
    requires ClientInv(at, waiting + multiset{e0}, c, b) && e0 in b.events
    ensures b.events[e0].origin == at ==> ClientInv(at, waiting, c, b)
    ensures b.events[e0].origin != at ==> ClientInv(at, waiting, OfferIfUser(c, b.events[e0].user, e0), b)
  {
    var d := if b.events[e0].origin == at then c else OfferIfUser(c, b.events[e0].user, e0);
    forall e
      ensures EventInv(at, waiting, d, b, e)
    {
      assert EventInv(at, waiting + multiset{e0}, c, b, e);
      OfferCounts(c, e0, e);
    }
  }

  // ----- Preservation, instance by instance

  lemma {:induction false} SubsetSize(a: set<ClientId>, b: set<ClientId>)
    requires a <= b
    ensures |a| <= |b|
  {
    if a != {} {
      var x :| x in a;
      SubsetSize(a - {x}, b - {x});
    }
  }

  lemma LocalPreserves(i: Instance, j: Instance, at: InstanceId, b: Board, step: Step)
    requires BoardInv(b) && InstanceInv(at, i, b) && Local(i, j, at, b, step)
    ensures InstanceInv(at, j, b)
  {
    hide ClientInv, InboxInv, BoardInv;
    var waiting := multiset(i.inbox);
    match step
    case Connect(_, c, user) =>
      NewClientInv(at, waiting, user, b);
      assert j.clients.Keys == i.clients.Keys + {c};
    case Disconnect(_, c) =>
      SubsetSize(j.clients.Keys, i.clients.Keys);
    case Read(_, c) =>
      assert j.clients.Keys == i.clients.Keys;
      ReadInv(at, waiting, i.clients[c], b, i.clients[c].buffered - 1);
    case Receive(_) => ReceivePreserves(i, at, b);
    case _ =>
  }

  lemma ReceivePreserves(i: Instance, at: InstanceId, b: Board)
    requires InstanceInv(at, i, b) && i.inbox != []
    ensures InstanceInv(at, TakeMessage(i, at, b), b)
  {
    var e0, rest := i.inbox[0], multiset(i.inbox[1..]);
    assert i.inbox == [e0] + i.inbox[1..];
    assert multiset(i.inbox) == rest + multiset{e0};
    assert e0 in multiset(i.inbox);
    forall e | e in rest
      ensures e in b.events && e !in b.unpublished && e !in b.lost && rest[e] == 1
    {
      assert e in multiset(i.inbox) && multiset(i.inbox)[e] == rest[e] + (if e == e0 then 1 else 0);
    }
    var j := TakeMessage(i, at, b);
    hide ClientInv, InboxInv;
    assert j.clients.Keys == i.clients.Keys;
    forall c | c in i.clients
      ensures ClientInv(at, rest, j.clients[c], b)
    {
      ReceiveInv(at, rest, i.clients[c], b, e0);
    }
  }

  lemma HandlePreserves(i: Instance, at: InstanceId, b: Board, origin: InstanceId, user: UserId)
    requires BoardInv(b) && InstanceInv(at, i, b)
    ensures InstanceInv(at, if at == origin then SendToUser(i, user, b.next) else i, Started(b, origin, user))
  {
    var waiting := multiset(i.inbox);
    assert InboxInv(waiting, Started(b, origin, user)) by {
      assert b.next !in b.events;
    }
    hide ClientInv, InboxInv, BoardInv, OfferIfUser;
    var j := if at == origin then SendToUser(i, user, b.next) else i;
    assert j.clients.Keys == i.clients.Keys;
    forall c | c in i.clients
      ensures ClientInv(at, waiting, j.clients[c], Started(b, origin, user))
    {
      if at == origin {
        HandleHereInv(at, waiting, i.clients[c], b, user);
      } else {
        HandleElsewhereInv(at, waiting, i.clients[c], b, origin, user);
      }
    }
  }

  lemma PublishPreserves(i: Instance, at: InstanceId, b: Board, e0: EventId)
    requires BoardInv(b) && InstanceInv(at, i, b) && e0 in b.unpublished
    ensures InstanceInv(at, i.(inbox := i.inbox + [e0]), b.(unpublished := b.unpublished - {e0}))
  {
    var waiting, b' := multiset(i.inbox), b.(unpublished := b.unpublished - {e0});
    assert multiset(i.inbox + [e0]) == waiting + multiset{e0};
    assert e0 !in waiting;
    assert InboxInv(waiting + multiset{e0}, b');
    hide ClientInv, InboxInv, BoardInv;
    forall c | c in i.clients
      ensures ClientInv(at, waiting + multiset{e0}, i.clients[c], b')
    {
      PublishInv(at, waiting, i.clients[c], b, e0);
    }
  }

  lemma PublishFailedPreserves(i: Instance, at: InstanceId, b: Board, e0: EventId)
    requires BoardInv(b) && InstanceInv(at, i, b) && e0 in b.unpublished
    ensures InstanceInv(at, i, b.(unpublished := b.unpublished - {e0}, lost := b.lost + {e0}))
  {
    var waiting, b' := multiset(i.inbox), b.(unpublished := b.unpublished - {e0}, lost := b.lost + {e0});
    assert InboxInv(waiting, b');
    hide ClientInv, InboxInv, BoardInv;
    forall c | c in i.clients
      ensures ClientInv(at, waiting, i.clients[c], b')
    {
      PublishFailedInv(at, waiting, i.clients[c], b, e0);
    }
  }

  lemma BoardPreserves(s: State, t: State, step: Step)
    requires BoardInv(s.board) && Next(s, t, step)
    ensures BoardInv(t.board)
  {
  }

  /** Every step of every instance keeps the count. */
  lemma NextPreserves(s: State, t: State, step: Step)
    requires Inv(s) && Next(s, t, step)
    ensures Inv(t)
  {
    BoardPreserves(s, t, step);
    hide InstanceInv, BoardInv, Local;
    forall i | i in t.instances
      ensures InstanceInv(i, t.instances[i], t.board)
    {
      assert i in s.instances && InstanceInv(i, s.instances[i], s.board);
      match step
      case Handle(at, user) => HandlePreserves(s.instances[i], i, s.board, at, user);
      case Publish(e) => PublishPreserves(s.instances[i], i, s.board, e);
      case PublishFailed(e) => PublishFailedPreserves(s.instances[i], i, s.board, e);
      case _ =>
        if i == step.at {
          LocalPreserves(s.instances[i], t.instances[i], i, s.board, step);
        }
    }
  }

  // ----- Whole runs

  ghost predicate Run(states: seq<State>, steps: seq<Step>) {
    && |states| == |steps| + 1 && Init(states[0])
    && forall k :: 0 <= k < |steps| ==> Next(states[k], states[k + 1], steps[k])
  }

  lemma {:induction false} RunKeepsInv(states: seq<State>, steps: seq<Step>, k: nat)
    requires Run(states, steps) && k < |states|
    ensures Inv(states[k])
  {
    hide Next, InstanceInv;
    if k == 0 {
      InitInv(states[0]);
    } else {
      RunKeepsInv(states, steps, k - 1);
      assert Next(states[k - 1], states[k - 1 + 1], steps[k - 1]);
      NextPreserves(states[k - 1], states[k], steps[k - 1]);
    }
  }

  lemma InitInv(s: State)
    requires Init(s)
    ensures Inv(s)
  {
  }

  /** The client is connected to the instance in the state. */
  predicate Connected(s: State, at: InstanceId, c: ClientId) {
    at in s.instances && c in s.instances[at].clients
  }

  /** In every run, no client is ever offered a membership event twice, clients of other users are
      never offered it, and connections stay within the limit. */
  lemma NeverTwice(states: seq<State>, steps: seq<Step>, k: nat, at: InstanceId, c: ClientId, e: EventId)
    requires Run(states, steps) && k < |states| && Connected(states[k], at, c) && e in states[k].board.events
    ensures var client := states[k].instances[at].clients[c];
            && Offers(client, e) <= 1
            && (client.user != states[k].board.events[e].user ==> Offers(client, e) == 0)
    ensures |states[k].instances[at].clients| <= states[k].instances[at].maxConns
  {
    var s := states[k];
    RunKeepsInv(states, steps, k);
    hide Run;
    assert InstanceInv(at, s.instances[at], s.board);
    assert EventInv(at, multiset(s.instances[at].inbox), s.instances[at].clients[c], s.board, e);
  }

  /** Nothing more is on its way to the instance for this event. */
  predicate Settled(s: State, at: InstanceId, e: EventId)
    requires at in s.instances && e in s.board.events
  {
    s.board.events[e].origin == at || (e !in s.board.unpublished && e !in s.instances[at].inbox)
  }

  /** Every client of the event's user that was connected when the event started, on whichever
      instance, has been offered it exactly once when its instance has worked off its messages. */
  lemma ExactlyOnce(states: seq<State>, steps: seq<Step>, k: nat, at: InstanceId, c: ClientId, e: EventId)
    requires Run(states, steps) && k < |states| && Connected(states[k], at, c) && e in states[k].board.events
    requires var client := states[k].instances[at].clients[c];
             client.user == states[k].board.events[e].user && client.since <= e
    requires Settled(states[k], at, e) && (states[k].board.events[e].origin == at || e !in states[k].board.lost)
    ensures Offers(states[k].instances[at].clients[c], e) == 1
  {
    var s := states[k];
    RunKeepsInv(states, steps, k);
    hide Run;
    assert InstanceInv(at, s.instances[at], s.board);
    assert EventInv(at, multiset(s.instances[at].inbox), s.instances[at].clients[c], s.board, e);
  }

  /** A client can connect exactly while its instance is below the limit, a change can be handled on
      any instance, and an instance can take a message whenever one waits. */
  lemma StepsDecide(s: State, at: InstanceId, c: ClientId, user: UserId)
    requires at in s.instances
    ensures (exists t :: Next(s, t, Connect(at, c, user))) <==>
              c !in s.instances[at].clients && |s.instances[at].clients| < s.instances[at].maxConns
    ensures (exists t :: Next(s, t, Handle(at, user))) <==> user != ""
    ensures (exists t :: Next(s, t, Receive(at))) <==> s.instances[at].inbox != []
  {
    var i := s.instances[at];
    if c !in i.clients && |i.clients| < i.maxConns {
      var j := i.(clients := i.clients[c := NewClient(user, s.board.next)]);
      assert Next(s, s.(instances := s.instances[at := j]), Connect(at, c, user));
    }
    if user != "" {
      assert Next(s, State(s.instances[at := SendToUser(i, user, s.board.next)], Started(s.board, at, user)), Handle(at, user));
    }
    if i.inbox != [] {
      assert Next(s, s.(instances := s.instances[at := TakeMessage(i, at, s.board)]), Receive(at));
    }
  }

  /** A client that stays connected drops an event only in a step that finds its buffer full. */
  lemma DroppedOnlyWhenFull(states: seq<State>, steps: seq<Step>, k: nat, at: InstanceId, c: ClientId, e: EventId)
    requires Run(states, steps) && k < |steps| && Connected(states[k], at, c) && Connected(states[k + 1], at, c)
    requires states[k + 1].instances[at].clients[c].dropped[e] > states[k].instances[at].clients[c].dropped[e]
    ensures states[k].instances[at].clients[c].buffered == 16
  {
    var s, t := states[k], states[k + 1];
    RunKeepsInv(states, steps, k);
    assert Next(s, t, steps[k]);
    hide Run;
    assert InstanceInv(at, s.instances[at], s.board);
    assert ClientInv(at, multiset(s.instances[at].inbox), s.instances[at].clients[c], s.board);
    hide InstanceInv, BoardInv, EventInv;
    StepDrops(s, t, steps[k], at, c, e);
  }

  lemma SendDrops(i: Instance, user: UserId, sent: EventId, c: ClientId, e: EventId)
    requires c in i.clients && i.clients[c].buffered <= CLIENT_BUFFER_SIZE
    ensures var j := SendToUser(i, user, sent);
            c in j.clients && (j.clients[c].dropped[e] > i.clients[c].dropped[e] ==> i.clients[c].buffered == CLIENT_BUFFER_SIZE)
  {
  }

  lemma StepDrops(s: State, t: State, step: Step, at: InstanceId, c: ClientId, e: EventId)
    requires Next(s, t, step) && Connected(s, at, c) && Connected(t, at, c)
    requires s.instances[at].clients[c].buffered <= CLIENT_BUFFER_SIZE
    requires t.instances[at].clients[c].dropped[e] > s.instances[at].clients[c].dropped[e]
    ensures s.instances[at].clients[c].buffered == CLIENT_BUFFER_SIZE
  {
    var i := s.instances[at];
    hide SendToUser;
    match step
    case Handle(_, user) => SendDrops(i, user, s.board.next, c, e);
    case Receive(_) =>
      if i.inbox != [] && i.inbox[0] in s.board.events {
        var sent := i.inbox[0];
        SendDrops(i.(inbox := i.inbox[1..]), s.board.events[sent].user, sent, c, e);
      }
    case _ =>
  }
}
