/** The heap model of one API instance carries out the steps of the delivery protocol: its
    handler performs the local part of `Handle`, its subscriber performs `Receive`. */
module HubRefinement {
  import opened Text
  import opened SseHub
  import opened MembershipEvents
  import Fanout = MembershipFanout

  /** The hub's clients under their protocol ids. */
  type Naming = map<Fanout.ClientId, Client>

  /** What waits in each client's channel. */
  type Channels = map<Fanout.ClientId, seq<Frame>>

  ghost function ChannelsOf(naming: Naming): (m: Channels)
    reads naming.Values
    ensures m.Keys == naming.Keys && forall c :: c in naming ==> m[c] == naming[c].channel
  {
    map c | c in naming :: naming[c].channel
  }

  ghost function UsersOf(naming: Naming): (m: map<Fanout.ClientId, string>)
    ensures m.Keys == naming.Keys && forall c :: c in naming ==> m[c] == naming[c].user
  {
    map c | c in naming :: naming[c].user
  }

  /** The protocol instance has the same clients of the same users, with as many frames waiting. */
  ghost predicate Describes(i: Fanout.Instance, users: map<Fanout.ClientId, string>, channels: Channels) {
    && users.Keys == channels.Keys == i.clients.Keys
    && forall c :: c in channels ==>
         users[c] == i.clients[c].user && |channels[c]| == i.clients[c].buffered <= CLIENT_BUFFER_SIZE
  }

  /** The instance describes the hub. */
  ghost predicate Represents(i: Fanout.Instance, hub: Hub, naming: Naming)
    reads hub, naming.Values
  {
    naming.Values == hub.clients && Describes(i, UsersOf(naming), ChannelsOf(naming))
  }

  /** A non-blocking send and an offer agree on whether the frame fits. */
  lemma SentIsOffer(channel: seq<Frame>, frame: Frame, c: Fanout.Client, e: Fanout.EventId)
    requires |channel| == c.buffered <= CLIENT_BUFFER_SIZE
    ensures |Hub.Sent(channel, frame)| == Fanout.Offer(c, e).buffered
    ensures Hub.Sent(channel, frame) == channel + [frame] <==> Fanout.Offer(c, e).accepted == c.accepted + multiset{e}
  {
    if |channel| == CLIENT_BUFFER_SIZE {
      assert |channel + [frame]| != |channel|;
      assert c.accepted[e] != (c.accepted + multiset{e})[e];
    }
  }

  lemma SendAt(i: Fanout.Instance, user: string, e: Fanout.EventId, c: Fanout.ClientId)
    requires c in i.clients
    ensures c in Fanout.SendToUser(i, user, e).clients
    ensures Fanout.SendToUser(i, user, e).clients[c] == Fanout.OfferIfUser(i.clients[c], user, e)
  {
  }

  lemma SendKeepsClients(i: Fanout.Instance, user: string, e: Fanout.EventId)
    ensures Fanout.SendToUser(i, user, e).clients.Keys == i.clients.Keys
  {
  }

  /** Sending to the user on the hub is sending to the user in the protocol. */
  lemma SendDescribed(i: Fanout.Instance, users: map<Fanout.ClientId, string>, before: Channels, after: Channels,
                      user: string, frame: Frame, e: Fanout.EventId)
    requires Describes(i, users, before) && after.Keys == before.Keys
    requires forall c :: c in before ==> after[c] == if users[c] == user then Hub.Sent(before[c], frame) else before[c]
    ensures Describes(Fanout.SendToUser(i, user, e), users, after)
  {
    var j := Fanout.SendToUser(i, user, e);
    SendKeepsClients(i, user, e);
    hide Fanout.SendToUser;
    forall c | c in after
      ensures users[c] == j.clients[c].user && |after[c]| == j.clients[c].buffered <= CLIENT_BUFFER_SIZE
    {
      SendAt(i, user, e, c);
      SentIsOffer(before[c], frame, i.clients[c], e);
    }
  }

  /** Every name stands for a client of the hub. */
  lemma Named(naming: Naming, clients: set<Client>)
    requires naming.Values == clients
    ensures forall c :: c in naming ==> naming[c] in clients
  {
  }

  /** The handler's update of its own hub is the protocol's local send. */
  method Handle(hub: Hub, instanceID: string, event: string, projectID: string, user: string, frame: Frame,
                ghost naming: Naming, ghost i: Fanout.Instance, ghost e: Fanout.EventId)
    returns (message: Envelope)
    requires hub.Valid() && hub.SetsApart() && IsMembershipEvent(event) && Represents(i, hub, naming)
    modifies hub.UserClients(user), hub.UserSets(user)
    ensures hub.Valid() && hub.SetsApart() && Represents(Fanout.SendToUser(i, user, e), hub, naming)
    ensures message == Envelope(event, projectID, Some(user), instanceID, frame)
  {
    hide Describes, Fanout.SendToUser, Hub.Sent, Hub.Valid, Hub.SetsApart, Client.Projects, ChannelsOf, UsersOf, ProjectsAfter, IsMembershipEvent;
    Named(naming, hub.clients);
    ghost var before := ChannelsOf(naming);
    message := HandleChange(hub, instanceID, event, projectID, user, frame);
    SendDescribed(i, UsersOf(naming), before, ChannelsOf(naming), user, frame, e);
  }

  /** The message is the one the protocol delivers next. */
  predicate Carries(env: Envelope, i: Fanout.Instance, b: Fanout.Board) {
    && i.inbox != [] && i.inbox[0] in b.events && env.projectID != "" && env.event != ""
    && var event := b.events[i.inbox[0]]; env.origin == event.origin && Target(env) == Some(event.user)
  }

  lemma ReceiveDescribed(i: Fanout.Instance, users: map<Fanout.ClientId, string>, before: Channels, after: Channels,
                         at: string, env: Envelope, b: Fanout.Board)
    requires Describes(i, users, before) && Carries(env, i, b) && after.Keys == before.Keys
    requires forall c :: c in before ==>
               after[c] == if !Skipped(env, at) && users[c] == Target(env).value then Hub.Sent(before[c], env.frame) else before[c]
    ensures Describes(Fanout.TakeMessage(i, at, b), users, after)
  {
    var rest := i.(inbox := i.inbox[1..]);
    assert Describes(rest, users, before);
    hide Describes, Fanout.SendToUser, Hub.Sent, Target;
    if Skipped(env, at) {
      assert after == before;
    } else {
      SendDescribed(rest, users, before, after, b.events[i.inbox[0]].user, env.frame, i.inbox[0]);
    }
  }

  /** What a personal notification does to the channels. */
  method HandlePersonal(hub: Hub, at: string, env: Envelope)
    requires hub.Valid() && hub.SetsApart() && Target(env).Some?
    modifies hub.clients, hub.AllSets()
    ensures hub.Valid() && hub.SetsApart()
    ensures forall c :: c in hub.clients ==>
              c.channel == if !Skipped(env, at) && c.user == Target(env).value then Hub.Sent(old(c.channel), env.frame) else old(c.channel)
  {
    hide Hub.AllSets, Hub.Valid, Hub.SetsApart, Hub.Sent, Client.Projects, ProjectsAfter, Target, Skipped;
    HandleMessage(hub, at, env);
  }

  /** The subscriber's treatment of a handler's message is the protocol's receive step. */
  method Receive(hub: Hub, at: string, env: Envelope, ghost naming: Naming, ghost i: Fanout.Instance, ghost b: Fanout.Board)
    requires hub.Valid() && hub.SetsApart() && Represents(i, hub, naming) && Carries(env, i, b)
    modifies hub.clients, hub.AllSets()
    ensures hub.Valid() && hub.SetsApart() && Represents(Fanout.TakeMessage(i, at, b), hub, naming)
  {
    assert Target(env).Some?;
    hide Hub.AllSets, Describes, Carries, Fanout.TakeMessage, Target, Hub.Sent, Hub.Valid, Hub.SetsApart, Client.Projects, ChannelsOf, UsersOf, ProjectsAfter, Skipped;
    Named(naming, hub.clients);
    ghost var before := ChannelsOf(naming);
    HandlePersonal(hub, at, env);
    ReceiveDescribed(i, UsersOf(naming), before, ChannelsOf(naming), at, env, b);
  }
}
