/** The last-owner rule: role changes, removals and additions of project members as
    transactions interleaving under PostgreSQL row locks (READ COMMITTED, FOR UPDATE).

    One project is modelled. A statement sees the committed rows as of its start; a
    FOR UPDATE statement then locks its candidates one by one, waiting where another
    transaction holds the lock, and re-checks each row in its latest version. Writes
    become visible at commit, which also releases the locks. Any transaction may be
    rolled back at any moment (deadlock victim, error, cancelled request). */
module LastOwner {
  type UserId = nat
  type RowId = nat
  type TxId = nat

  datatype Role = Owner | Admin | Member

  /** A row of project_members for the project. */
  datatype Row = Row(user: UserId, role: Role)

  datatype Request =
    | UpdateRole(target: UserId, newRole: Role, actor: UserId, actorRole: Role)
    | Remove(target: UserId, actor: UserId, actorRole: Role)

  /** Where a transaction stands. */
  datatype Phase =
    /** Waiting for the lock on the target row found by GetProjectMemberForUpdate. */
    | LockTarget(row: RowId)
    /** The target row is locked and its owner is to be dropped; the count is the next statement. */
    | TargetHeld(row: RowId)
    /** Inside CountProjectOwnersForUpdate: candidates still to lock, rows counted so far. */
    | Counting(row: RowId, candidates: set<RowId>, counted: set<RowId>)
    /** The write has been issued and awaits commit. */
    | Writing(row: RowId, counted: set<RowId>)

  datatype Tx = Tx(request: Request, phase: Phase)

  datatype State = State(
    rows: map<RowId, Row>,
    active: set<UserId>,
    locks: map<RowId, TxId>,
    txs: map<TxId, Tx>)

  predicate IsOwner(s: State, row: RowId) {
    row in s.rows && s.rows[row].role == Owner
  }

  // ----- The checks of the service

  /** The checks UpdateRole and Remove make before they open a transaction. */
  predicate Permitted(r: Request) {
    match r
    case UpdateRole(target, newRole, actor, actorRole) =>
      actor != target && actorRole != Member && !(actorRole == Admin && newRole == Owner)
    case Remove(target, actor, actorRole) =>
      actor == target || actorRole != Member
  }

  /** An admin may not touch an owner, except to leave. */
  predicate Forbidden(r: Request, targetRole: Role) {
    targetRole == Owner && r.actorRole == Admin && (r.UpdateRole? || r.actor != r.target)
  }

  predicate IsNoOp(r: Request, targetRole: Role) {
    r.UpdateRole? && r.newRole == targetRole
  }

  /** The write takes an owner away. */
  predicate DropsOwner(r: Request, targetRole: Role) {
    targetRole == Owner && (r.Remove? || r.newRole != Owner)
  }

  // ----- Steps

  function Release(s: State, tx: TxId): State {
    s.(locks := map row | row in s.locks && s.locks[row] != tx :: s.locks[row], txs := s.txs - {tx})
  }

  predicate CanLock(s: State, tx: TxId, row: RowId) {
    row in s.locks ==> s.locks[row] == tx
  }

  /** Opening the transaction: the target row is looked up in the committed rows. */
  ghost predicate Begin(s: State, t: State, tx: TxId, r: Request, row: RowId) {
    && tx !in s.txs && Permitted(r)
    && row in s.rows && s.rows[row].user == r.target
    && t == s.(txs := s.txs[tx := Tx(r, LockTarget(row))])
  }

  /** The target row is locked and re-read; the role checks decide what follows. A row that
      was deleted meanwhile, a forbidden change and a no-op all end the transaction. */
  ghost predicate TargetLocked(s: State, t: State, tx: TxId) {
    && tx in s.txs && s.txs[tx].phase.LockTarget?
    && var r, row := s.txs[tx].request, s.txs[tx].phase.row;
    && CanLock(s, tx, row)
    && (if row !in s.rows || Forbidden(r, s.rows[row].role) || IsNoOp(r, s.rows[row].role) then t == Release(s, tx)
        else
          var next := if DropsOwner(r, s.rows[row].role) then TargetHeld(row) else Writing(row, {});
          t == s.(locks := s.locks[row := tx], txs := s.txs[tx := Tx(r, next)]))
  }

  /** The rows the counting statement starts from: owners whose user is active. */
  function OwnerCandidates(s: State): set<RowId> {
    set row | row in s.rows && s.rows[row].role == Owner && s.rows[row].user in s.active
  }

  /** The counting statement begins, any time after the target was locked: its candidates are
      the owners of that moment. */
  ghost predicate CountStarted(s: State, t: State, tx: TxId) {
    && tx in s.txs && s.txs[tx].phase.TargetHeld?
    && t == s.(txs := s.txs[tx := s.txs[tx].(phase := Counting(s.txs[tx].phase.row, OwnerCandidates(s), {}))])
  }

  /** One more candidate is locked and re-checked: counted only if it is still an owner row. */
  ghost predicate CandidateLocked(s: State, t: State, tx: TxId, row: RowId) {
    && tx in s.txs && s.txs[tx].phase.Counting?
    && var p := s.txs[tx].phase;
    && row in p.candidates && CanLock(s, tx, row)
    && var rest := p.candidates - {row};
    && (if IsOwner(s, row)
        then t == s.(locks := s.locks[row := tx], txs := s.txs[tx := s.txs[tx].(phase := Counting(p.row, rest, p.counted + {row}))])
        else t == s.(txs := s.txs[tx := s.txs[tx].(phase := Counting(p.row, rest, p.counted))]))
  }

  /** All candidates seen: refuse to take the last owner away, otherwise write. */
  ghost predicate Counted(s: State, t: State, tx: TxId) {
    && tx in s.txs && s.txs[tx].phase.Counting? && s.txs[tx].phase.candidates == {}
    && var p := s.txs[tx].phase;
    && (if |p.counted| <= 1 then t == Release(s, tx)
        else t == s.(txs := s.txs[tx := s.txs[tx].(phase := Writing(p.row, p.counted))]))
  }

  function Written(rows: map<RowId, Row>, r: Request, row: RowId): map<RowId, Row> {
    if row !in rows then rows
    else if r.Remove? then rows - {row} else rows[row := rows[row].(role := r.newRole)]
  }

  ghost predicate Commit(s: State, t: State, tx: TxId) {
    && tx in s.txs && s.txs[tx].phase.Writing?
    && t == Release(s.(rows := Written(s.rows, s.txs[tx].request, s.txs[tx].phase.row)), tx)
  }

  ghost predicate Rollback(s: State, t: State, tx: TxId) {
    tx in s.txs && t == Release(s, tx)
  }

  /** Adding a member is a single insert, open to admins for every role but owner; the unique
      constraint refuses a second row per user. That the user is active is checked before, so it
      may no longer hold. */
  ghost predicate Add(s: State, t: State, row: RowId, member: Row, actorRole: Role) {
    && actorRole != Member && !(actorRole == Admin && member.role == Owner)
    && row !in s.rows && row !in s.locks
    && (forall other :: other in s.rows ==> s.rows[other].user != member.user)
    && (forall tx :: tx in s.txs ==> row !in RowsNamed(s.txs[tx].phase))
    && t == s.(rows := s.rows[row := member])
  }

  /** Row ids are generated, so a new row is never one a transaction already refers to. */
  function RowsNamed(p: Phase): set<RowId> {
    match p
    case LockTarget(row) => {row}
    case TargetHeld(row) => {row}
    case Counting(row, candidates, counted) => {row} + candidates + counted
    case Writing(row, counted) => {row} + counted
  }

  /** Users are activated and deactivated without regard to memberships. */
  ghost predicate SetActive(s: State, t: State, user: UserId, on: bool) {
    t == s.(active := if on then s.active + {user} else s.active - {user})
  }

  datatype Step =
    | BeginStep(tx: TxId, r: Request, row: RowId)
    | TargetLockedStep(tx: TxId)
    | CountStartedStep(tx: TxId)
    | CandidateLockedStep(tx: TxId, row: RowId)
    | CountedStep(tx: TxId)
    | CommitStep(tx: TxId)
    | RollbackStep(tx: TxId)
    | AddStep(row: RowId, member: Row, actorRole: Role)
    | SetActiveStep(user: UserId, on: bool)

  ghost predicate Next(s: State, t: State, step: Step) {
    match step
    case BeginStep(tx, r, row) => Begin(s, t, tx, r, row)
    case TargetLockedStep(tx) => TargetLocked(s, t, tx)
    case CountStartedStep(tx) => CountStarted(s, t, tx)
    case CandidateLockedStep(tx, row) => CandidateLocked(s, t, tx, row)
    case CountedStep(tx) => Counted(s, t, tx)
    case CommitStep(tx) => Commit(s, t, tx)
    case RollbackStep(tx) => Rollback(s, t, tx)
    case AddStep(row, member, actorRole) => Add(s, t, row, member, actorRole)
    case SetActiveStep(user, on) => SetActive(s, t, user, on)
  }

  // ----- The invariant

  ghost predicate HasOwner(s: State) {
    exists row :: IsOwner(s, row)
  }

  ghost predicate UniqueUsers(s: State) {
    forall i, j :: i in s.rows && j in s.rows && s.rows[i].user == s.rows[j].user ==> i == j
  }

  ghost predicate Holds(s: State, tx: TxId, row: RowId) {
    row in s.locks && s.locks[row] == tx && row in s.rows
  }

  /** The target is a locked owner row that the request may drop. */
  ghost predicate DropPending(s: State, tx: TxId, r: Request, row: RowId) {
    Holds(s, tx, row) && s.rows[row].role == Owner && s.rows[row].user == r.target && !Forbidden(r, Owner)
  }

  /** What a transaction knows stays true while it holds the locks. */
  ghost predicate TxSound(s: State, tx: TxId, t: Tx) {
    Permitted(t.request) &&
    match t.phase
    case LockTarget(row) => row in s.rows ==> s.rows[row].user == t.request.target
    case TargetHeld(row) => DropPending(s, tx, t.request, row)
    case Counting(row, candidates, counted) =>
      && DropPending(s, tx, t.request, row)
      && (forall c :: c in counted ==> Holds(s, tx, c) && s.rows[c].role == Owner)
    case Writing(row, counted) =>
      && Holds(s, tx, row) && s.rows[row].user == t.request.target
      && !Forbidden(t.request, s.rows[row].role)
      && (forall c :: c in counted ==> Holds(s, tx, c) && s.rows[c].role == Owner)
      && (DropsOwner(t.request, s.rows[row].role) ==> exists c :: c in counted && c != row)
  }

  ghost predicate Inv(s: State) {
    && HasOwner(s)
    && UniqueUsers(s)
    && (forall tx :: tx in s.txs ==> TxSound(s, tx, s.txs[tx]))
  }

  // ----- Preservation

  /** A transaction's knowledge survives any change that leaves its locks and locked rows alone. */
  lemma TxSoundFrame(s: State, t: State, tx: TxId, x: Tx)
    requires TxSound(s, tx, x)
    requires forall row :: Holds(s, tx, row) ==> Holds(t, tx, row) && t.rows[row] == s.rows[row]
    requires forall row :: row in t.rows && row in RowsNamed(x.phase) ==> row in s.rows && t.rows[row].user == s.rows[row].user
    ensures TxSound(t, tx, x)
  {
  }

  lemma ReleasePreserves(s: State, tx: TxId)
    requires Inv(s)
    ensures Inv(Release(s, tx))
  {
    var t := Release(s, tx);
    var owner :| IsOwner(s, owner);
    assert IsOwner(t, owner);
    forall other | other in t.txs
      ensures TxSound(t, other, t.txs[other])
    {
      TxSoundFrame(s, t, other, s.txs[other]);
    }
  }

  lemma BeginPreserves(s: State, t: State, tx: TxId, r: Request, row: RowId)
    requires Inv(s) && Begin(s, t, tx, r, row)
    ensures Inv(t)
  {
    var owner :| IsOwner(s, owner);
    assert IsOwner(t, owner);
    forall other | other in t.txs
      ensures TxSound(t, other, t.txs[other])
    {
      if other != tx { TxSoundFrame(s, t, other, s.txs[other]); }
    }
  }

  lemma TargetLockedPreserves(s: State, t: State, tx: TxId)
    requires Inv(s) && TargetLocked(s, t, tx)
    ensures Inv(t)
  {
    if t == Release(s, tx) {
      ReleasePreserves(s, tx);
    } else {
      var owner :| IsOwner(s, owner);
      assert IsOwner(t, owner);
      forall other | other in t.txs
        ensures TxSound(t, other, t.txs[other])
      {
        if other != tx { TxSoundFrame(s, t, other, s.txs[other]); }
      }
    }
  }

  lemma CountStartedPreserves(s: State, t: State, tx: TxId)
    requires Inv(s) && CountStarted(s, t, tx)
    ensures Inv(t)
  {
    var owner :| IsOwner(s, owner);
    assert IsOwner(t, owner);
    assert TxSound(s, tx, s.txs[tx]);
    forall other | other in t.txs
      ensures TxSound(t, other, t.txs[other])
    {
      if other != tx { TxSoundFrame(s, t, other, s.txs[other]); }
    }
  }

  lemma CandidateLockedPreserves(s: State, t: State, tx: TxId, row: RowId)
    requires Inv(s) && CandidateLocked(s, t, tx, row)
    ensures Inv(t)
  {
    var owner :| IsOwner(s, owner);
    assert IsOwner(t, owner);
    assert TxSound(s, tx, s.txs[tx]);
    forall other | other in t.txs
      ensures TxSound(t, other, t.txs[other])
    {
      if other != tx { TxSoundFrame(s, t, other, s.txs[other]); }
    }
  }

  lemma AnotherCounted(counted: set<RowId>, row: RowId)
    requires |counted| > 1
    ensures exists c :: c in counted && c != row
  {
    var rest := counted - {row};
    assert |rest| >= |counted| - 1 by {
      if row in counted { assert counted == rest + {row}; } else { assert counted == rest; }
    }
    var c :| c in rest;
  }

  lemma CountedPreserves(s: State, t: State, tx: TxId)
    requires Inv(s) && Counted(s, t, tx)
    ensures Inv(t)
  {
    var p := s.txs[tx].phase;
    if |p.counted| <= 1 {
      ReleasePreserves(s, tx);
    } else {
      AnotherCounted(p.counted, p.row);
      var owner :| IsOwner(s, owner);
      assert IsOwner(t, owner);
      assert TxSound(s, tx, s.txs[tx]);
      forall other | other in t.txs
        ensures TxSound(t, other, t.txs[other])
      {
        if other != tx { TxSoundFrame(s, t, other, s.txs[other]); }
      }
    }
  }

  /** The heart of the rule: whatever a commit writes, another owner row locked by the same
      transaction is still there. */
  lemma CommitKeepsAnOwner(s: State, t: State, tx: TxId)
    requires Inv(s) && Commit(s, t, tx)
    ensures HasOwner(t)
  {
    var x := s.txs[tx];
    assert TxSound(s, tx, x);
    if DropsOwner(x.request, s.rows[x.phase.row].role) {
      var c :| c in x.phase.counted && c != x.phase.row;
      assert IsOwner(t, c);
    } else {
      var owner :| IsOwner(s, owner);
      assert IsOwner(t, owner);
    }
  }

  lemma CommitPreserves(s: State, t: State, tx: TxId)
    requires Inv(s) && Commit(s, t, tx)
    ensures Inv(t)
  {
    CommitKeepsAnOwner(s, t, tx);
    assert TxSound(s, tx, s.txs[tx]);
    forall other | other in t.txs
      ensures TxSound(t, other, t.txs[other])
    {
      TxSoundFrame(s, t, other, s.txs[other]);
    }
  }

  lemma AddPreserves(s: State, t: State, row: RowId, member: Row, actorRole: Role)
    requires Inv(s) && Add(s, t, row, member, actorRole)
    ensures Inv(t)
  {
    var owner :| IsOwner(s, owner);
    assert IsOwner(t, owner);
    forall other | other in t.txs
      ensures TxSound(t, other, t.txs[other])
    {
      TxSoundFrame(s, t, other, s.txs[other]);
    }
  }

  /** Every step of every transaction keeps the invariant. */
  lemma NextPreserves(s: State, t: State, step: Step)
    requires Inv(s) && Next(s, t, step)
    ensures Inv(t)
  {
    match step
    case BeginStep(tx, r, row) => BeginPreserves(s, t, tx, r, row);
    case TargetLockedStep(tx) => TargetLockedPreserves(s, t, tx);
    case CountStartedStep(tx) => CountStartedPreserves(s, t, tx);
    case CandidateLockedStep(tx, row) => CandidateLockedPreserves(s, t, tx, row);
    case CountedStep(tx) => CountedPreserves(s, t, tx);
    case CommitStep(tx) => CommitPreserves(s, t, tx);
    case RollbackStep(tx) => ReleasePreserves(s, tx);
    case AddStep(row, member, actorRole) => AddPreserves(s, t, row, member, actorRole);
    case SetActiveStep(user, on) =>
      var owner :| IsOwner(s, owner);
      assert IsOwner(t, owner);
  }

  // ----- Whole runs

  /** A run: any interleaving of steps, starting with no transaction open. */
  ghost predicate Run(states: seq<State>, steps: seq<Step>) {
    && |states| == |steps| + 1
    && states[0].txs == map[] && states[0].locks == map[] && UniqueUsers(states[0])
    && forall i :: 0 <= i < |steps| ==> Next(states[i], states[i + 1], steps[i])
  }

  lemma {:induction false} RunKeepsInv(states: seq<State>, steps: seq<Step>, k: nat)
    requires Run(states, steps) && HasOwner(states[0]) && k < |states|
    ensures Inv(states[k])
  {
    if k > 0 {
      RunKeepsInv(states, steps, k - 1);
      assert Next(states[k - 1], states[k - 1 + 1], steps[k - 1]);
      NextPreserves(states[k - 1], states[k], steps[k - 1]);
    }
  }

  /** In every interleaving, a project that starts with an owner row never loses its last one,
      and no user ever has two rows. */
  lemma NeverWithoutOwner(states: seq<State>, steps: seq<Step>)
    requires Run(states, steps) && HasOwner(states[0])
    ensures forall k :: 0 <= k < |states| ==> HasOwner(states[k]) && UniqueUsers(states[k])
  {
    forall k | 0 <= k < |states|
      ensures HasOwner(states[k]) && UniqueUsers(states[k])
    {
      RunKeepsInv(states, steps, k);
    }
  }

  /** Whoever takes an owner row away is an owner, or is the user leaving. */
  lemma OwnerRowsFallOnlyToOwners(states: seq<State>, steps: seq<Step>, k: nat, row: RowId)
    requires Run(states, steps) && HasOwner(states[0]) && k < |steps|
    requires IsOwner(states[k], row) && !IsOwner(states[k + 1], row)
    ensures steps[k].CommitStep? && steps[k].tx in states[k].txs
    ensures var r := states[k].txs[steps[k].tx].request;
            && r.target == states[k].rows[row].user
            && (r.actorRole == Owner || (r.Remove? && r.actor == r.target))
            && exists other :: other != row && IsOwner(states[k], other) && IsOwner(states[k + 1], other)
  {
    RunKeepsInv(states, steps, k);
    assert Next(states[k], states[k + 1], steps[k]);
    OwnerLoss(states[k], states[k + 1], steps[k], row);
  }

  lemma OwnerLoss(s: State, t: State, step: Step, row: RowId)
    requires Inv(s) && Next(s, t, step)
    requires IsOwner(s, row) && !IsOwner(t, row)
    ensures step.CommitStep? && step.tx in s.txs
    ensures var r := s.txs[step.tx].request;
            && r.target == s.rows[row].user
            && (r.actorRole == Owner || (r.Remove? && r.actor == r.target))
            && exists other :: other != row && IsOwner(s, other) && IsOwner(t, other)
  {
    assert step.CommitStep?;
    var tx := step.tx;
    assert TxSound(s, tx, s.txs[tx]);
    assert row == s.txs[tx].phase.row;
    var c :| c in s.txs[tx].phase.counted && c != row;
    assert IsOwner(s, c) && IsOwner(t, c);
  }

  /** Whoever makes an owner row is an owner. */
  lemma OwnerRowsAriseOnlyFromOwners(states: seq<State>, steps: seq<Step>, k: nat, row: RowId)
    requires Run(states, steps) && HasOwner(states[0]) && k < |steps|
    requires !IsOwner(states[k], row) && IsOwner(states[k + 1], row)
    ensures match steps[k]
            case AddStep(added, member, actorRole) => added == row && actorRole == Owner
            case CommitStep(tx) => tx in states[k].txs && states[k].txs[tx].request.UpdateRole? && states[k].txs[tx].request.actorRole == Owner
            case _ => false
  {
    RunKeepsInv(states, steps, k);
    assert Next(states[k], states[k + 1], steps[k]);
    OwnerGain(states[k], states[k + 1], steps[k], row);
  }

  lemma OwnerGain(s: State, t: State, step: Step, row: RowId)
    requires Inv(s) && Next(s, t, step) && !IsOwner(s, row) && IsOwner(t, row)
    ensures match step
            case AddStep(added, member, actorRole) => added == row && actorRole == Owner
            case CommitStep(tx) => tx in s.txs && s.txs[tx].request.UpdateRole? && s.txs[tx].request.actorRole == Owner
            case _ => false
  {
    if step.CommitStep? {
      assert TxSound(s, step.tx, s.txs[step.tx]);
    }
  }

  // ----- What the operations achieve

  /** A committed removal leaves the user without a row; a committed role change gives the user's row
      the new role. Every other row is as it was. */
  lemma CommitEffect(states: seq<State>, steps: seq<Step>, k: nat, tx: TxId)
    requires Run(states, steps) && HasOwner(states[0]) && k < |steps| && steps[k] == CommitStep(tx)
    ensures tx in states[k].txs
    ensures var s, t, r := states[k], states[k + 1], states[k].txs[tx].request;
            && (exists row :: row in s.rows && s.rows[row].user == r.target)
            && (r.Remove? ==> forall row :: row in t.rows ==> t.rows[row].user != r.target)
            && (r.UpdateRole? ==> exists row :: row in t.rows && row in s.rows && s.rows[row].user == r.target && t.rows[row] == Row(r.target, r.newRole))
            && (forall row :: row in s.rows && s.rows[row].user != r.target ==> row in t.rows && t.rows[row] == s.rows[row])
            && (forall row :: row in t.rows ==> row in s.rows && t.rows[row].user == s.rows[row].user)
  {
    RunKeepsInv(states, steps, k);
    assert Next(states[k], states[k + 1], steps[k]);
    assert TxSound(states[k], tx, states[k].txs[tx]);
    var row := states[k].txs[tx].phase.row;
    assert row in states[k].rows && states[k].rows[row].user == states[k].txs[tx].request.target;
  }

  /** An addition gives a user without a row one with the role asked for; only owners add owners. */
  lemma AddEffect(s: State, t: State, added: RowId, member: Row, actorRole: Role)
    requires Next(s, t, AddStep(added, member, actorRole))
    ensures actorRole == Owner || (actorRole == Admin && member.role != Owner)
    ensures forall row :: row in s.rows ==> s.rows[row].user != member.user && row in t.rows && t.rows[row] == s.rows[row]
    ensures forall row :: row in t.rows && row !in s.rows <==> row == added
    ensures t.rows[added] == member
  {
  }

  /** Who may add whom: owners anybody, admins anybody but owners, and each user once. */
  lemma AddDecides(s: State, added: RowId, member: Row, actorRole: Role)
    requires added !in s.rows && added !in s.locks && forall tx :: tx in s.txs ==> added !in RowsNamed(s.txs[tx].phase)
    ensures (exists t :: Next(s, t, AddStep(added, member, actorRole))) <==>
              && (actorRole == Owner || (actorRole == Admin && member.role != Owner))
              && forall row :: row in s.rows ==> s.rows[row].user != member.user
  {
    var t := s.(rows := s.rows[added := member]);
    if Add(s, t, added, member, actorRole) {
      assert Next(s, t, AddStep(added, member, actorRole));
    }
  }

  /** A row is locked exactly when no other transaction holds it; a write that was issued can commit;
      any open transaction can be rolled back. */
  lemma StepsDecide(s: State, tx: TxId, row: RowId)
    ensures (exists t :: Next(s, t, TargetLockedStep(tx))) <==>
              tx in s.txs && s.txs[tx].phase.LockTarget? && (s.txs[tx].phase.row !in s.locks || s.locks[s.txs[tx].phase.row] == tx)
    ensures (exists t :: Next(s, t, CountStartedStep(tx))) <==> tx in s.txs && s.txs[tx].phase.TargetHeld?
    ensures (exists t :: Next(s, t, CandidateLockedStep(tx, row))) <==>
              tx in s.txs && s.txs[tx].phase.Counting? && row in s.txs[tx].phase.candidates && (row !in s.locks || s.locks[row] == tx)
    ensures (exists t :: Next(s, t, CountedStep(tx))) <==> tx in s.txs && s.txs[tx].phase.Counting? && s.txs[tx].phase.candidates == {}
    ensures (exists t :: Next(s, t, CommitStep(tx))) <==> tx in s.txs && s.txs[tx].phase.Writing?
    ensures (exists t :: Next(s, t, RollbackStep(tx))) <==> tx in s.txs
  {
    if tx in s.txs {
      var x := s.txs[tx];
      assert Next(s, Release(s, tx), RollbackStep(tx));
      match x.phase
      case LockTarget(target) => LockTargetEnabled(s, tx);
      case TargetHeld(target) =>
        assert Next(s, s.(txs := s.txs[tx := x.(phase := Counting(target, OwnerCandidates(s), {}))]), CountStartedStep(tx));
      case Counting(target, candidates, counted) => CountingEnabled(s, tx, row);
      case Writing(target, counted) =>
        assert Next(s, Release(s.(rows := Written(s.rows, x.request, target)), tx), CommitStep(tx));
    }
  }

  lemma LockTargetEnabled(s: State, tx: TxId)
    requires tx in s.txs && s.txs[tx].phase.LockTarget?
    ensures CanLock(s, tx, s.txs[tx].phase.row) ==> exists t :: Next(s, t, TargetLockedStep(tx))
  {
    var r, row := s.txs[tx].request, s.txs[tx].phase.row;
    if CanLock(s, tx, row) {
      var t := if row !in s.rows || Forbidden(r, s.rows[row].role) || IsNoOp(r, s.rows[row].role) then Release(s, tx)
               else s.(locks := s.locks[row := tx],
                       txs := s.txs[tx := Tx(r, if DropsOwner(r, s.rows[row].role) then TargetHeld(row) else Writing(row, {}))]);
      assert Next(s, t, TargetLockedStep(tx));
    }
  }

  lemma CountingEnabled(s: State, tx: TxId, row: RowId)
    requires tx in s.txs && s.txs[tx].phase.Counting?
    ensures row in s.txs[tx].phase.candidates && CanLock(s, tx, row) ==> exists t :: Next(s, t, CandidateLockedStep(tx, row))
    ensures s.txs[tx].phase.candidates == {} ==> exists t :: Next(s, t, CountedStep(tx))
  {
    var x := s.txs[tx];
    var p := x.phase;
    if row in p.candidates && CanLock(s, tx, row) {
      var rest := p.candidates - {row};
      var t := if IsOwner(s, row)
               then s.(locks := s.locks[row := tx], txs := s.txs[tx := x.(phase := Counting(p.row, rest, p.counted + {row}))])
               else s.(txs := s.txs[tx := x.(phase := Counting(p.row, rest, p.counted))]);
      assert Next(s, t, CandidateLockedStep(tx, row));
    }
    if p.candidates == {} {
      var t := if |p.counted| <= 1 then Release(s, tx) else s.(txs := s.txs[tx := x.(phase := Writing(p.row, p.counted))]);
      assert Next(s, t, CountedStep(tx));
    }
  }

  /** Nothing else changes a row. */
  lemma OtherStepsKeepRows(s: State, t: State, step: Step)
    requires Next(s, t, step) && !step.CommitStep? && !step.AddStep?
    ensures t.rows == s.rows
  {
  }

  /** Who may ask for what: nobody changes their own role, members change nothing but may leave, and
      only owners make owners. */
  lemma BeginDecides(s: State, tx: TxId, r: Request, row: RowId)
    ensures (exists t :: Next(s, t, BeginStep(tx, r, row))) <==>
            && tx !in s.txs && row in s.rows && s.rows[row].user == r.target
            && (r.UpdateRole? ==> r.actor != r.target && (r.actorRole == Owner || (r.actorRole == Admin && r.newRole != Owner)))
            && (r.Remove? ==> r.actor == r.target || r.actorRole == Owner || r.actorRole == Admin)
  {
    var t := s.(txs := s.txs[tx := Tx(r, LockTarget(row))]);
    if tx !in s.txs && row in s.rows && s.rows[row].user == r.target && Permitted(r) {
      assert Next(s, t, BeginStep(tx, r, row));
    }
  }

  /** What becomes of a transaction once its target is locked: it ends if the row is gone, if an admin
      would touch an owner other than by leaving, or if there is nothing to change; it has to count
      exactly when an owner is to be removed or demoted; otherwise it writes at once. */
  lemma TargetLockedDecides(s: State, t: State, tx: TxId)
    requires Inv(s) && Next(s, t, TargetLockedStep(tx))
    ensures var r, row := s.txs[tx].request, s.txs[tx].phase.row;
            if row !in s.rows then tx !in t.txs
            else
              var role := s.rows[row].role;
              var ends := (role == Owner && r.actorRole == Admin && r.actor != r.target) || (r.UpdateRole? && r.newRole == role);
              && (tx !in t.txs <==> ends)
              && (tx in t.txs && t.txs[tx].phase.TargetHeld? <==> !ends && role == Owner)
              && (tx in t.txs && t.txs[tx].phase.Writing? <==> !ends && role != Owner)
  {
    assert TxSound(s, tx, s.txs[tx]);
  }

  /** The count starts from the rows that are owned by active users at this moment, all of them. */
  lemma CountStartedDecides(s: State, t: State, tx: TxId, row: RowId)
    requires Next(s, t, CountStartedStep(tx))
    ensures tx in t.txs && t.txs[tx].phase.Counting? && t.txs[tx].phase.counted == {}
    ensures row in t.txs[tx].phase.candidates <==> row in s.rows && s.rows[row].role == Owner && s.rows[row].user in s.active
  {
  }

  /** A candidate is counted, and stays locked, exactly when it is still an owner row. */
  lemma CandidateDecides(s: State, t: State, tx: TxId, row: RowId)
    requires Next(s, t, CandidateLockedStep(tx, row))
    ensures var still := row in s.rows && s.rows[row].role == Owner;
            && tx in t.txs && t.txs[tx].phase.Counting?
            && t.txs[tx].phase.counted == (if still then s.txs[tx].phase.counted + {row} else s.txs[tx].phase.counted)
            && t.txs[tx].phase.candidates == s.txs[tx].phase.candidates - {row}
            && (still ==> row in t.locks && t.locks[row] == tx)
  {
  }

  /** The request goes through exactly when two different owner rows were counted. */
  lemma CountedDecides(s: State, t: State, tx: TxId)
    requires Next(s, t, CountedStep(tx))
    ensures var counted := s.txs[tx].phase.counted;
            tx in t.txs && t.txs[tx].phase.Writing? <==> exists a, b :: a in counted && b in counted && a != b
    ensures tx in t.txs ==> t.txs[tx].request == s.txs[tx].request && t.txs[tx].phase.Writing?
  {
    var counted := s.txs[tx].phase.counted;
    if |counted| > 1 {
      var a :| a in counted;
      AnotherCounted(counted, a);
    }
    if a, b :| a in counted && b in counted && a != b {
      TwoCounted(counted, a, b);
    }
  }

  lemma TwoCounted(counted: set<RowId>, a: RowId, b: RowId)
    requires a in counted && b in counted && a != b
    ensures |counted| > 1
  {
    var rest := counted - {a};
    assert b in rest && |rest| > 0;
    assert counted == rest + {a};
  }

  /** In every run, only open transactions hold locks: whatever ends one releases its locks. */
  lemma {:induction false} LocksOfOpenTransactions(states: seq<State>, steps: seq<Step>, k: nat, row: RowId)
    requires Run(states, steps) && k < |states| && row in states[k].locks
    ensures states[k].locks[row] in states[k].txs
  {
    if k > 0 {
      assert Next(states[k - 1], states[k - 1 + 1], steps[k - 1]);
      if row in states[k - 1].locks { LocksOfOpenTransactions(states, steps, k - 1, row); }
    }
  }

  // ----- Active owners

  /** An owner row of an active user. */
  predicate IsActiveOwner(s: State, row: RowId) {
    row in s.rows && s.rows[row].role == Owner && s.rows[row].user in s.active
  }

  ghost predicate HasActiveOwner(s: State) {
    exists row :: IsActiveOwner(s, row)
  }

  /** The owner rows a transaction relies on: those it has counted or is about to. */
  function ReliedOn(p: Phase): set<RowId> {
    match p
    case LockTarget(row) => {}
    case TargetHeld(row) => {}
    case Counting(row, candidates, counted) => candidates + counted
    case Writing(row, counted) => counted
  }

  /** The rows a transaction relies on belong to active users. */
  ghost predicate CountsActive(s: State, p: Phase) {
    forall c :: c in ReliedOn(p) && c in s.rows ==> s.rows[c].user in s.active
  }

  ghost predicate ActiveInv(s: State) {
    HasActiveOwner(s) && forall tx :: tx in s.txs ==> CountsActive(s, s.txs[tx].phase)
  }

  predicate Deactivates(step: Step) {
    step.SetActiveStep? && !step.on
  }

  /** Rows keep their users, new rows are new to every transaction, and users stay active. */
  lemma CountsActiveFrame(s: State, t: State, p: Phase)
    requires CountsActive(s, p) && s.active <= t.active
    requires forall row :: row in t.rows && row in RowsNamed(p) ==> row in s.rows && t.rows[row].user == s.rows[row].user
    ensures CountsActive(t, p)
  {
    assert ReliedOn(p) <= RowsNamed(p);
  }

  lemma UsersKept(s: State, t: State, step: Step, tx: TxId)
    requires Next(s, t, step) && !Deactivates(step) && tx in s.txs
    ensures s.active <= t.active
    ensures forall row :: row in t.rows && row in RowsNamed(s.txs[tx].phase) ==> row in s.rows && t.rows[row].user == s.rows[row].user
  {
  }

  /** What a step other than a deactivation leaves of the transactions' knowledge. */
  lemma StepCountsActive(s: State, t: State, step: Step, tx: TxId)
    requires Next(s, t, step) && !Deactivates(step) && ActiveInv(s) && tx in t.txs
    ensures CountsActive(t, t.txs[tx].phase)
  {
    if tx in s.txs {
      UsersKept(s, t, step, tx);
      CountsActiveFrame(s, t, s.txs[tx].phase);
    }
  }

  /** A commit that drops an active owner leaves one that the same transaction counted. */
  lemma CommitKeepsActiveOwner(s: State, t: State, tx: TxId)
    requires Inv(s) && ActiveInv(s) && Commit(s, t, tx)
    ensures HasActiveOwner(t)
  {
    var owner :| IsActiveOwner(s, owner);
    assert TxSound(s, tx, s.txs[tx]) && CountsActive(s, s.txs[tx].phase);
    var row := s.txs[tx].phase.row;
    if owner == row && DropsOwner(s.txs[tx].request, s.rows[row].role) {
      var c :| c in s.txs[tx].phase.counted && c != row;
      assert IsActiveOwner(t, c);
    } else {
      assert IsActiveOwner(t, owner);
    }
  }

  lemma StepKeepsActiveOwner(s: State, t: State, step: Step)
    requires Inv(s) && ActiveInv(s) && Next(s, t, step) && !Deactivates(step)
    ensures HasActiveOwner(t)
  {
    if step.CommitStep? {
      CommitKeepsActiveOwner(s, t, step.tx);
    } else {
      hide Inv;
      var owner :| IsActiveOwner(s, owner);
      assert IsActiveOwner(t, owner);
    }
  }

  // ----- Which deactivations are harmless

  /** The project has an active owner other than the user. */
  ghost predicate AnotherActiveOwner(s: State, user: UserId) {
    exists row :: IsActiveOwner(s, row) && s.rows[row].user != user
  }

  /** No open transaction relies on a row of the user. Counting locks membership rows but not the
      rows of users, so nothing in the source ensures this. */
  ghost predicate Unrelied(s: State, user: UserId) {
    forall tx, row :: tx in s.txs && row in ReliedOn(s.txs[tx].phase) && row in s.rows ==> s.rows[row].user != user
  }

  lemma GuardedDeactivation(s: State, t: State, user: UserId)
    requires ActiveInv(s) && SetActive(s, t, user, false) && AnotherActiveOwner(s, user) && Unrelied(s, user)
    ensures ActiveInv(t)
  {
    var row :| IsActiveOwner(s, row) && s.rows[row].user != user;
    assert IsActiveOwner(t, row);
    forall tx | tx in t.txs
      ensures CountsActive(t, t.txs[tx].phase)
    {
      assert CountsActive(s, s.txs[tx].phase);
    }
  }

  /** Who may be deactivated, and which of the two conditions is checked before. */
  datatype Policy = Policy(users: iset<UserId>, checksOwners: bool, checksTransactions: bool)

  ghost predicate Allowed(policy: Policy, s: State, step: Step) {
    Deactivates(step) ==>
      && step.user in policy.users
      && (policy.checksOwners ==> AnotherActiveOwner(s, step.user))
      && (policy.checksTransactions ==> Unrelied(s, step.user))
  }

  ghost predicate Obeys(policy: Policy, states: seq<State>, steps: seq<Step>)
    requires |states| == |steps| + 1
  {
    forall i :: 0 <= i < |steps| ==> Allowed(policy, states[i], steps[i])
  }

  /** The policy lets nobody be deactivated, or checks both conditions. */
  predicate Sufficient(policy: Policy) {
    policy.users == iset{} || (policy.checksOwners && policy.checksTransactions)
  }

  lemma StepKeepsActiveInv(policy: Policy, s: State, t: State, step: Step)
    requires Sufficient(policy) && Allowed(policy, s, step)
    requires Inv(s) && ActiveInv(s) && Next(s, t, step)
    ensures ActiveInv(t)
  {
    if Deactivates(step) {
      GuardedDeactivation(s, t, step.user);
    } else {
      StepKeepsActiveOwner(s, t, step);
      hide Inv, Next;
      forall tx | tx in t.txs
        ensures CountsActive(t, t.txs[tx].phase)
      {
        StepCountsActive(s, t, step, tx);
      }
    }
  }

  lemma {:induction false} RunKeepsActiveInv(policy: Policy, states: seq<State>, steps: seq<Step>, k: nat)
    requires Run(states, steps) && Obeys(policy, states, steps) && Sufficient(policy) && HasActiveOwner(states[0]) && k < |states|
    ensures Inv(states[k]) && ActiveInv(states[k])
  {
    var owner :| IsActiveOwner(states[0], owner);
    assert IsOwner(states[0], owner);
    RunKeepsInv(states, steps, k);
    if k > 0 {
      RunKeepsActiveInv(policy, states, steps, k - 1);
      assert Next(states[k - 1], states[k - 1 + 1], steps[k - 1]) && Allowed(policy, states[k - 1], steps[k - 1]);
      hide Next, Inv, Allowed, ActiveInv;
      StepKeepsActiveInv(policy, states[k - 1], states[k], steps[k - 1]);
    }
  }

  /** Under the policy, a project with an active owner keeps one in every run. */
  ghost predicate KeepsActiveOwner(policy: Policy) {
    forall states: seq<State>, steps: seq<Step> :: Run(states, steps) && Obeys(policy, states, steps) && HasActiveOwner(states[0]) ==>
      forall k :: 0 <= k < |states| ==> HasActiveOwner(states[k])
  }

  /** Active owners are kept in every run exactly when each deactivation leaves another active owner
      and hits no owner an open transaction relies on, or when nobody is ever deactivated. */
  lemma ActiveOwnerExactly(policy: Policy)
    ensures KeepsActiveOwner(policy) <==> Sufficient(policy)
  {
    if Sufficient(policy) {
      forall states: seq<State>, steps: seq<Step> | Run(states, steps) && Obeys(policy, states, steps) && HasActiveOwner(states[0])
        ensures forall k :: 0 <= k < |states| ==> HasActiveOwner(states[k])
      {
        forall k | 0 <= k < |states|
          ensures HasActiveOwner(states[k])
        {
          RunKeepsActiveInv(policy, states, steps, k);
        }
      }
    } else {
      hide Run, HasActiveOwner, Allowed;
      var user :| user in policy.users;
      var states, steps;
      if policy.checksOwners {
        states, steps := DeactivationRacesCommit(user, policy);
      } else {
        states, steps := SoleOwnerDeactivated(user, policy);
      }
    }
  }

  /** Deactivating a user is refused for oneself and for the last platform admin, but never because
      of the projects the user owns: checking the transactions alone is not enough. */
  lemma SoleOwnerDeactivated(user: UserId, policy: Policy) returns (states: seq<State>, steps: seq<Step>)
    requires user in policy.users && !policy.checksOwners
    ensures Run(states, steps) && Obeys(policy, states, steps) && HasActiveOwner(states[0])
    ensures !HasActiveOwner(states[|states| - 1])
  {
    var s0 := State(map[0 := Row(user, Owner)], {user}, map[], map[]);
    var s1 := s0.(active := s0.active - {user});
    states, steps := [s0, s1], [SetActiveStep(user, false)];
    assert IsActiveOwner(s0, 0);
  }

  /** A run under the policy that ends in `last`. */
  ghost predicate RunTo(policy: Policy, states: seq<State>, steps: seq<Step>, last: State) {
    Run(states, steps) && Obeys(policy, states, steps) && HasActiveOwner(states[0]) && states[|states| - 1] == last
  }

  lemma Extended(policy: Policy, states: seq<State>, steps: seq<Step>, s: State, step: Step, t: State)
    requires RunTo(policy, states, steps, s) && Next(s, t, step) && Allowed(policy, s, step)
    ensures RunTo(policy, states + [t], steps + [step], t)
  {
    hide Next, Allowed;
    var longer, more := states + [t], steps + [step];
    forall i | 0 <= i < |more|
      ensures Next(longer[i], longer[i + 1], more[i]) && Allowed(policy, longer[i], more[i])
    {
      if i < |steps| { assert Next(states[i], states[i + 1], steps[i]) && Allowed(policy, states[i], steps[i]); }
    }
  }

  /** Two active owners, the second of whom the first is demoting. */
  function Demoting(user: UserId, other: UserId, locks: map<RowId, TxId>, phase: Phase): State {
    State(map[0 := Row(user, Owner), 1 := Row(other, Owner)], {user, other}, locks,
          map[0 := Tx(UpdateRole(other, Member, user, Owner), phase)])
  }

  lemma DemotionBegins(user: UserId, other: UserId)
    requires user != other
    ensures var s := State(map[0 := Row(user, Owner), 1 := Row(other, Owner)], {user, other}, map[], map[]);
            Next(s, Demoting(user, other, map[], LockTarget(1)), BeginStep(0, UpdateRole(other, Member, user, Owner), 1))
  {
  }

  lemma DemotionLocks(user: UserId, other: UserId)
    ensures Next(Demoting(user, other, map[], LockTarget(1)), Demoting(user, other, map[1 := 0], TargetHeld(1)), TargetLockedStep(0))
  {
  }

  lemma DemotionCounts(user: UserId, other: UserId)
    ensures Next(Demoting(user, other, map[1 := 0], TargetHeld(1)), Demoting(user, other, map[1 := 0], Counting(1, {0, 1}, {})), CountStartedStep(0))
  {
    assert OwnerCandidates(Demoting(user, other, map[1 := 0], TargetHeld(1))) == {0, 1};
  }

  lemma DemotionCountsFirst(user: UserId, other: UserId)
    ensures Next(Demoting(user, other, map[1 := 0], Counting(1, {0, 1}, {})), Demoting(user, other, map[1 := 0, 0 := 0], Counting(1, {1}, {0})), CandidateLockedStep(0, 0))
  {
    assert {0, 1} - {0} == {1} && {} + {0} == {0};
  }

  lemma DemotionCountsSecond(user: UserId, other: UserId)
    ensures var locks := map[1 := 0, 0 := 0];
            Next(Demoting(user, other, locks, Counting(1, {1}, {0})), Demoting(user, other, locks, Counting(1, {}, {0, 1})), CandidateLockedStep(0, 1))
  {
    var locks := map[1 := 0, 0 := 0];
    assert {1} - {1} == {} && {0} + {1} == {0, 1} && locks[1 := 0] == locks;
  }

  lemma DemotionCounted(user: UserId, other: UserId)
    ensures var locks := map[1 := 0, 0 := 0];
            Next(Demoting(user, other, locks, Counting(1, {}, {0, 1})), Demoting(user, other, locks, Writing(1, {0, 1})), CountedStep(0))
  {
    assert |{0, 1}| == 2;
  }

  /** A demotion has locked and counted both owners and is about to commit. */
  lemma BothCounted(policy: Policy, user: UserId, other: UserId) returns (states: seq<State>, steps: seq<Step>)
    requires user != other
    ensures RunTo(policy, states, steps, Demoting(user, other, map[1 := 0, 0 := 0], Writing(1, {0, 1})))
  {
    states, steps := TargetLockedRun(policy, user, other);
    var locks := map[1 := 0, 0 := 0];
    var s0 := Demoting(user, other, map[1 := 0], Counting(1, {0, 1}, {}));
    var s1 := Demoting(user, other, locks, Counting(1, {1}, {0}));
    var s2 := Demoting(user, other, locks, Counting(1, {}, {0, 1}));
    var s3 := Demoting(user, other, locks, Writing(1, {0, 1}));
    hide RunTo, Next, Demoting;
    DemotionCountsFirst(user, other);
    Extended(policy, states, steps, s0, CandidateLockedStep(0, 0), s1);
    states, steps := states + [s1], steps + [CandidateLockedStep(0, 0)];
    DemotionCountsSecond(user, other);
    Extended(policy, states, steps, s1, CandidateLockedStep(0, 1), s2);
    states, steps := states + [s2], steps + [CandidateLockedStep(0, 1)];
    DemotionCounted(user, other);
    Extended(policy, states, steps, s2, CountedStep(0), s3);
    states, steps := states + [s3], steps + [CountedStep(0)];
  }

  lemma TargetLockedRun(policy: Policy, user: UserId, other: UserId) returns (states: seq<State>, steps: seq<Step>)
    requires user != other
    ensures RunTo(policy, states, steps, Demoting(user, other, map[1 := 0], Counting(1, {0, 1}, {})))
  {
    var s0 := State(map[0 := Row(user, Owner), 1 := Row(other, Owner)], {user, other}, map[], map[]);
    var s1 := Demoting(user, other, map[], LockTarget(1));
    var s2 := Demoting(user, other, map[1 := 0], TargetHeld(1));
    var s3 := Demoting(user, other, map[1 := 0], Counting(1, {0, 1}, {}));
    var begin := BeginStep(0, UpdateRole(other, Member, user, Owner), 1);
    states, steps := [s0], [];
    assert IsActiveOwner(s0, 0);
    assert RunTo(policy, states, steps, s0);
    hide RunTo, Next, Demoting;
    DemotionBegins(user, other);
    Extended(policy, states, steps, s0, begin, s1);
    states, steps := states + [s1], steps + [begin];
    DemotionLocks(user, other);
    Extended(policy, states, steps, s1, TargetLockedStep(0), s2);
    states, steps := states + [s2], steps + [TargetLockedStep(0)];
    DemotionCounts(user, other);
    Extended(policy, states, steps, s2, CountStartedStep(0), s3);
    states, steps := states + [s3], steps + [CountStartedStep(0)];
  }

  /** The race in the service itself: a demotion counts two active owners, the other one is
      deactivated while the target still is one, and the demotion commits. */
  lemma DeactivationRacesCommit(user: UserId, policy: Policy) returns (states: seq<State>, steps: seq<Step>)
    requires user in policy.users && !policy.checksTransactions
    ensures Run(states, steps) && Obeys(policy, states, steps) && HasActiveOwner(states[0])
    ensures !HasActiveOwner(states[|states| - 1])
  {
    var other := user + 1;
    states, steps := BothCounted(policy, user, other);
    var s0 := Demoting(user, other, map[1 := 0, 0 := 0], Writing(1, {0, 1}));
    var s1 := s0.(active := s0.active - {user});
    var s2 := Release(s1.(rows := Written(s1.rows, UpdateRole(other, Member, user, Owner), 1)), 0);
    assert IsActiveOwner(s0, 1) && AnotherActiveOwner(s0, user);
    Extended(policy, states, steps, s0, SetActiveStep(user, false), s1);
    states, steps := states + [s1], steps + [SetActiveStep(user, false)];
    Extended(policy, states, steps, s1, CommitStep(0), s2);
    states, steps := states + [s2], steps + [CommitStep(0)];
    assert s2.rows == map[0 := Row(user, Owner), 1 := Row(other, Member)];
  }
}
