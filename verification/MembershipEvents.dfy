/** Membership events at one API instance: what a handler does after a change, and what the
    subscriber does with a message from the channel. */
module MembershipEvents {
  import opened Text
  import opened SseHub

  /** A message; `userID` is absent where the data does not parse or names no user. */
  datatype Envelope = Envelope(event: string, projectID: string, userID: Option<string>, origin: string, frame: Frame)

  predicate IsMembershipEvent(event: string) {
    event in {"member:added", "member:removed", "member:role_updated"}
  }

  /** The user a message is a personal notification for, if any. */
  function Target(env: Envelope): Option<string> {
    if IsMembershipEvent(env.event) && env.userID.Some? && env.userID.value != "" then env.userID else None
  }

  /** Incomplete messages and those this instance published itself are skipped. */
  predicate Skipped(env: Envelope, instanceID: string) {
    env.projectID == "" || env.event == "" || (instanceID != "" && env.origin != "" && env.origin == instanceID)
  }

  /** The target's membership after the event. */
  function ProjectsAfter(env: Envelope, projects: set<string>): set<string> {
    if env.event == "member:added" then projects + {env.projectID}
    else if env.event == "member:removed" then projects - {env.projectID}
    else projects
  }

  /** Brings the user's clients up to date and then notifies them. */
  method NotifyUser(hub: Hub, user: string, env: Envelope)
    requires hub.Valid() && hub.SetsApart()
    modifies hub.UserClients(user), hub.UserSets(user)
    ensures hub.Valid() && hub.SetsApart()
    ensures forall c :: c in hub.clients ==>
              c.Projects() == if c.user == user then ProjectsAfter(env, old(c.Projects())) else old(c.Projects())
    ensures forall c :: c in hub.clients ==>
              c.channel == if c.user == user then Hub.Sent(old(c.channel), env.frame) else old(c.channel)
  {
    if env.event == "member:added" {
      hub.AddProjectForUser(user, env.projectID);
    } else if env.event == "member:removed" {
      hub.RemoveProjectForUser(user, env.projectID);
    }
    hub.SendToUser(user, env.frame);
  }

  /** A complete message from elsewhere about one user's membership. */
  predicate Personal(env: Envelope, instanceID: string) {
    && env.projectID != "" && (env.event == "member:added" || env.event == "member:removed" || env.event == "member:role_updated")
    && env.userID.Some? && env.userID.value != ""
    && (env.origin == "" || env.origin != instanceID)
  }

  /** A message changes memberships and notifies its user exactly if it is a personal one; it is
      broadcast exactly if it is complete, from elsewhere, and not personal. */
  lemma WhatAMessageIs(env: Envelope, instanceID: string)
    ensures Personal(env, instanceID) <==> !Skipped(env, instanceID) && Target(env).Some?
    ensures Personal(env, instanceID) ==> Target(env) == env.userID
    ensures !Skipped(env, instanceID) <==>
              env.projectID != "" && env.event != "" && (env.origin == "" || env.origin != instanceID)
  {
  }

  method HandleMessage(hub: Hub, instanceID: string, env: Envelope)
    requires hub.Valid() && hub.SetsApart()
    modifies hub.clients, hub.AllSets()
    ensures hub.Valid() && hub.SetsApart()
    ensures Skipped(env, instanceID) ==>
              forall c :: c in hub.clients ==> c.Projects() == old(c.Projects()) && c.channel == old(c.channel)
    ensures Personal(env, instanceID) && env.event == "member:added" ==>
              forall c :: c in hub.clients && c.user == env.userID.value ==> c.Projects() == old(c.Projects()) + {env.projectID}
    ensures Personal(env, instanceID) && env.event == "member:removed" ==>
              forall c :: c in hub.clients && c.user == env.userID.value ==> c.Projects() == old(c.Projects()) - {env.projectID}
    ensures env.event != "member:added" && env.event != "member:removed" ==>
              forall c :: c in hub.clients ==> c.Projects() == old(c.Projects())
    ensures !Skipped(env, instanceID) && Target(env).Some? ==>
              forall c :: c in hub.clients ==>
                && c.Projects() == (if c.user == Target(env).value then ProjectsAfter(env, old(c.Projects())) else old(c.Projects()))
                && c.channel == if c.user == Target(env).value then Hub.Sent(old(c.channel), env.frame) else old(c.channel)
    ensures !Skipped(env, instanceID) && Target(env).None? ==>
              forall c :: c in hub.clients ==>
                && c.Projects() == old(c.Projects())
                && c.channel == if env.projectID in old(c.Projects()) then Hub.Sent(old(c.channel), env.frame) else old(c.channel)
  {
    if env.projectID == "" { return; }
    if env.event == "" { return; }
    if instanceID != "" && env.origin != "" && env.origin == instanceID { return; }
    var target := Target(env);
    if target.Some? {
      NotifyUser(hub, target.value, env);
    } else {
      hub.Broadcast(env.projectID, env.frame);
    }
  }

  /** After a committed change the handler updates and notifies its own clients first, and then
      hands over the message to publish, marked with its own instance. */
  method HandleChange(hub: Hub, instanceID: string, event: string, projectID: string, user: string, frame: Frame)
    returns (message: Envelope)
    requires hub.Valid() && hub.SetsApart() && IsMembershipEvent(event)
    modifies hub.UserClients(user), hub.UserSets(user)
    ensures hub.Valid() && hub.SetsApart() && message == Envelope(event, projectID, Some(user), instanceID, frame)
    ensures forall c :: c in hub.clients ==>
              c.Projects() == if c.user == user then ProjectsAfter(message, old(c.Projects())) else old(c.Projects())
    ensures forall c :: c in hub.clients && c.user == user ==>
              && (event == "member:added" ==> c.Projects() == old(c.Projects()) + {projectID})
              && (event == "member:removed" ==> c.Projects() == old(c.Projects()) - {projectID})
              && (event == "member:role_updated" ==> c.Projects() == old(c.Projects()))
    ensures forall c :: c in hub.clients ==>
              c.channel == if c.user == user then Hub.Sent(old(c.channel), frame) else old(c.channel)
  {
    message := Envelope(event, projectID, Some(user), instanceID, frame);
    NotifyUser(hub, user, message);
  }

  /** A handler's message is skipped by its own instance, and by every other instance is treated
      as a notification for the same user with the same effect on memberships. */
  lemma MessageHasOneHandler(message: Envelope, instanceID: string, other: string)
    requires IsMembershipEvent(message.event) && message.projectID != "" && message.origin == instanceID && instanceID != ""
    requires message.userID.Some? && message.userID.value != ""
    ensures Skipped(message, other) <==> other == instanceID
    ensures Target(message) == message.userID
  {
  }
}
