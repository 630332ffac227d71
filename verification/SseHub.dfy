/** The hub of one API instance: connected clients, their membership sets and their channels.
    Every method runs under the hub's lock. Membership sets are shared objects: a refresh gives
    all clients of a user the same set. */
module SseHub {
  const CLIENT_BUFFER_SIZE: nat := 16

  type Frame = string

  class MemberSet {
    var ids: set<string>

    constructor (ids: set<string>)
      ensures this.ids == ids
    {
      this.ids := ids;
    }
  }

  class Client {
    const user: string
    var projects: MemberSet?
    var channel: seq<Frame>
    var doneClosed: bool

    constructor (user: string, projects: MemberSet?)
      ensures this.user == user && this.projects == projects && channel == [] && !doneClosed
    {
      this.user, this.projects, channel, doneClosed := user, projects, [], false;
    }

    /** The projects whose events the client receives; a nil set has none. */
    ghost function Projects(): set<string>
      reads this, projects
    {
      if projects == null then {} else projects.ids
    }
  }

  class Hub {
    var clients: set<Client>
    const maxConns: int

    constructor (maxConns: int)
      ensures Valid() && SetsApart() && DonesOpen() && clients == {} && this.maxConns == maxConns
    {
      clients, this.maxConns := {}, maxConns;
    }

    /** The limit holds, and channels hold at most their capacity. */
    ghost predicate Valid()
      reads this, clients
    {
      && (clients == {} || |clients| <= maxConns)
      && (forall c :: c in clients ==> |c.channel| <= CLIENT_BUFFER_SIZE)
    }

    /** No registered client was unregistered before. */
    ghost predicate DonesOpen()
      reads this, clients
    {
      forall c :: c in clients ==> !c.doneClosed
    }

    /** A set is shared only between clients of one user. */
    ghost predicate SetsApart()
      reads this, clients
    {
      forall c, d :: c in clients && d in clients && c.projects != null && c.projects == d.projects ==> c.user == d.user
    }

    /** The client's set is one of the user's. */
    ghost predicate SharesSet(c: Client, user: string)
      reads this, clients, c
    {
      c.projects != null && c.projects in UserSets(user)
    }

    ghost function UserClients(user: string): set<Client>
      reads this
    {
      set c | c in clients && c.user == user
    }

    ghost function UserSets(user: string): set<MemberSet>
      reads this, clients
    {
      set c | c in clients && c.user == user && c.projects != null :: c.projects
    }

    ghost function AllSets(): set<MemberSet>
      reads this, clients
    {
      set c | c in clients && c.projects != null :: c.projects
    }

    method Register(c: Client) returns (ok: bool)
      requires Valid() && |c.channel| <= CLIENT_BUFFER_SIZE
      modifies this
      ensures Valid() && (old(DonesOpen()) && !c.doneClosed ==> DonesOpen())
      ensures old(SetsApart()) && (forall d :: d in clients && d.projects != null && d.projects == c.projects ==> d.user == c.user) ==> SetsApart()
      ensures ok <==> |old(clients)| < maxConns
      ensures clients == old(clients) + if ok then {c} else {}
    {
      if |clients| >= maxConns {
        return false;
      }
      clients := clients + {c};
      ok := true;
    }

    /** Closing a done channel a second time panics: this happens exactly for a client that was
        unregistered before and registered again. */
    method Unregister(c: Client) returns (panicked: bool)
      requires Valid()
      modifies this, c
      ensures panicked <==> c in old(clients) && old(c.doneClosed)
      ensures old(DonesOpen()) ==> DonesOpen()
      ensures Valid() && clients == old(clients) - {c} && (old(SetsApart()) ==> SetsApart())
      ensures c.doneClosed == (old(c.doneClosed) || c in old(clients))
      ensures c.projects == old(c.projects) && c.channel == old(c.channel)
    {
      panicked := false;
      if c in clients {
        ghost var before := clients;
        clients := clients - {c};
        assert before == clients + {c};
        panicked := c.doneClosed;
        c.doneClosed := true;
      }
    }

    /** The loop of AddProjectForUser, in terms of the set objects. */
    method AddToSets(user: string, project: string)
      requires Valid()
      modifies UserClients(user)`projects, UserSets(user)`ids
      ensures forall c :: c in clients && old(c.projects) != null ==> c.projects == old(c.projects)
      ensures forall c :: c in clients && c.user == user ==> c.projects != null && project in c.projects.ids
      ensures forall c :: c in clients && c.user == user && old(c.projects) == null ==> fresh(c.projects) && c.projects.ids == {project}
      ensures forall m :: m in old(UserSets(user)) ==> old(m.ids) <= m.ids <= old(m.ids) + {project}
    {
      ghost var sets := UserSets(user);
      var rest := clients;
      while rest != {}
        invariant rest <= clients
        invariant forall c :: c in clients && (c in rest || old(c.projects) != null) ==> c.projects == old(c.projects)
        invariant forall c :: c in clients - rest && c.user == user ==> c.projects != null && project in c.projects.ids
        invariant forall c :: c in clients && c.user == user && old(c.projects) == null && c.projects != null ==>
                    fresh(c.projects) && c.projects.ids == {project}
        invariant forall m :: m in sets ==> old(m.ids) <= m.ids <= old(m.ids) + {project}
        decreases rest
      {
        var c :| c in rest;
        rest := rest - {c};
        if c.user == user {
          if c.projects == null {
            c.projects := new MemberSet({});
          }
          c.projects.ids := c.projects.ids + {project};
        }
      }
    }

    /** Adds the project for every client of the user. Other clients see the change exactly when
        they share a set with one of these, so none does while sets are apart. */
    method AddProjectForUser(user: string, project: string)
      requires Valid()
      modifies UserClients(user)`projects, UserSets(user)`ids
      ensures Valid() && (old(SetsApart()) ==> SetsApart())
      ensures forall c :: c in clients ==>
                c.Projects() == old(c.Projects()) + if c.user == user || old(SharesSet(c, user)) then {project} else {}
      ensures old(SetsApart()) ==>
                forall c :: c in clients ==> c.Projects() == old(c.Projects()) + if c.user == user then {project} else {}
    {
      AddToSets(user, project);
      forall c | c in clients
        ensures c.Projects() == old(c.Projects()) + if c.user == user || old(SharesSet(c, user)) then {project} else {}
      {
        if old(c.projects) != null {
          assert c.projects == old(c.projects);
          if old(c.projects in UserSets(user)) {
            var d :| d in clients && d.user == user && old(d.projects) == old(c.projects);
            assert d.projects == c.projects;
          }
        }
      }
    }

    /** Removes the project for every client of the user, with the same proviso. */
    method RemoveProjectForUser(user: string, project: string)
      requires Valid()
      modifies UserSets(user)`ids
      ensures Valid() && (old(SetsApart()) ==> SetsApart())
      ensures forall c :: c in clients ==>
                c.Projects() == old(c.Projects()) - if c.user == user || SharesSet(c, user) then {project} else {}
      ensures old(SetsApart()) ==>
                forall c :: c in clients ==> c.Projects() == old(c.Projects()) - if c.user == user then {project} else {}
    {
      ghost var sets := UserSets(user);
      var rest := clients;
      while rest != {}
        invariant rest <= clients
        invariant forall c :: c in clients - rest && c.user == user && c.projects != null ==> project !in c.projects.ids
        invariant forall m :: m in sets ==> old(m.ids) - {project} <= m.ids <= old(m.ids)
        decreases rest
      {
        var c :| c in rest;
        rest := rest - {c};
        if c.user == user {
          if c.projects != null {
            c.projects.ids := c.projects.ids - {project};
          }
        }
      }
      forall c | c in clients
        ensures c.Projects() == old(c.Projects()) - if c.user == user || SharesSet(c, user) then {project} else {}
      {
        if c.user == user && c.projects != null {
          assert c.projects in sets;
        }
      }
    }

    /** What a non-blocking send leaves in the channel. */
    static function Sent(channel: seq<Frame>, frame: Frame): seq<Frame> {
      if |channel| < CLIENT_BUFFER_SIZE then channel + [frame] else channel
    }

    /** Sends to every client of the user, and to no other client. */
    method SendToUser(user: string, frame: Frame)
      requires Valid()
      modifies UserClients(user)`channel
      ensures Valid() && (old(SetsApart()) ==> SetsApart())
      ensures forall c :: c in clients ==> c.channel == if c.user == user then Sent(old(c.channel), frame) else old(c.channel)
    {
      var rest := clients;
      while rest != {}
        invariant rest <= clients
        invariant forall c :: c in clients ==>
                    c.channel == if c.user == user && c !in rest then Sent(old(c.channel), frame) else old(c.channel)
        decreases rest
      {
        var c :| c in rest;
        rest := rest - {c};
        if c.user == user {
          if |c.channel| < CLIENT_BUFFER_SIZE {
            c.channel := c.channel + [frame];
          }
        }
      }
    }

    /** Sends to every client whose set contains the project, and to no other client. */
    method Broadcast(project: string, frame: Frame)
      requires Valid()
      modifies clients`channel
      ensures Valid() && (old(SetsApart()) ==> SetsApart())
      ensures forall c :: c in clients ==>
                c.channel == if project in c.Projects() then Sent(old(c.channel), frame) else old(c.channel)
    {
      var rest := clients;
      while rest != {}
        invariant rest <= clients
        invariant forall c :: c in clients ==>
                    c.channel == if project in c.Projects() && c !in rest then Sent(old(c.channel), frame) else old(c.channel)
        decreases rest
      {
        var c :| c in rest;
        rest := rest - {c};
        if c.projects != null && project in c.projects.ids {
          if |c.channel| < CLIENT_BUFFER_SIZE {
            c.channel := c.channel + [frame];
          }
        }
      }
    }

    /** Gives every client of a reloaded user the one set loaded for that user. The sets were
        loaded outside the lock, one new set per user, so `memberships` may name any users. */
    method ApplyMemberships(memberships: map<string, MemberSet>)
      requires Valid()
      requires forall u, v :: u in memberships && v in memberships && memberships[u] == memberships[v] ==> u == v
      requires forall c, u :: c in clients && u in memberships ==> c.projects != memberships[u]
      modifies clients`projects
      ensures Valid() && (old(SetsApart()) ==> SetsApart())
      ensures forall c :: c in clients ==> c.projects == if c.user in memberships then memberships[c.user] else old(c.projects)
    {
      var rest := clients;
      while rest != {}
        invariant rest <= clients
        invariant forall c :: c in clients ==>
                    c.projects == if c.user in memberships && c !in rest then memberships[c.user] else old(c.projects)
        decreases rest
      {
        var c :| c in rest;
        rest := rest - {c};
        if c.user in memberships {
          c.projects := memberships[c.user];
        }
      }
    }
  }
}
