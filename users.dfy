/**
 * Deleting a user: who may be deleted, the optional replacement of the same
 * role who inherits every reference, and, without one, the removal of
 * everything that refers to the user or to the leads they submitted.
 */
module UserAdmin {
  import opened Wrappers
  import opened Schema
  import opened RoundRobin
  import opened Store
  import opened Rows

  function CountRole(users: seq<User>, role: Role): nat
  {
    |PoolIds(users, role)|
  }

  /**
   * The refusals of `delete_user` as written. The replacement is the parsed
   * `replacement_user_id` form value, None when it is absent or empty.
   */
  function DeleteGuardAsWritten(users: seq<User>, actor: User, userId: int, replacement: Option<int>): Outcome
  {
    if actor.role != Admin then Forbidden
    else if userId == actor.id then Forbidden
    else match FindUser(users, userId)
      case None => NotFound
      case Some(u) =>
        if u.isProtected then Forbidden
        else if CountRole(users, u.role) <= 1 then InvalidState
        else if replacement.Some? &&
                (FindUser(users, replacement.value).None? || FindUser(users, replacement.value).value.role != u.role)
        then BadRequest
        else Ok
  }

  /** The guard as intended: the replacement must also be another user, as the confirmation page offers. */
  function DeleteGuard(users: seq<User>, actor: User, userId: int, replacement: Option<int>): Outcome
  {
    var r := DeleteGuardAsWritten(users, actor, userId, replacement);
    if r == Ok && replacement == Some(userId) then BadRequest else r
  }

  /** Another user holds the same role as `u`. */
  predicate HasPeer(users: seq<User>, u: User)
  {
    exists v :: v in users && v.role == u.role && v.id != u.id
  }

  /** "Not the last of their role": the role's pool has a second member iff a peer exists. */
  lemma CountRolePeer(users: seq<User>, u: User)
    requires UsersOrdered(users) && u in users
    ensures CountRole(users, u.role) >= 2 <==> HasPeer(users, u)
  {
    var pool := PoolIds(users, u.role);
    PoolIdsOrdered(users, u.role);
    assert u.id in pool;
    if |pool| >= 2 {
      var other := if pool[0] == u.id then pool[1] else pool[0];
      assert other in pool && other != u.id;
      var v :| v in users && v.role == u.role && v.id == other;
    }
    if HasPeer(users, u) {
      var v :| v in users && v.role == u.role && v.id != u.id;
      assert v.id in pool;
      var i :| 0 <= i < |pool| && pool[i] == u.id;
      var j :| 0 <= j < |pool| && pool[j] == v.id;
      assert i != j;
    }
  }

  /** The conditions under which a deletion may go ahead, stated on the users table. */
  predicate Deletable(users: seq<User>, actor: User, userId: int, replacement: Option<int>)
  {
    actor.role == Admin && userId != actor.id &&
    exists u :: u in users && u.id == userId && !u.isProtected && HasPeer(users, u) &&
      (replacement.Some? ==>
        (replacement.value != userId && exists w :: w in users && w.id == replacement.value && w.role == u.role))
  }

  /**
   * A deletion goes ahead iff an admin deletes someone else who exists, is
   * not protected and is not the last of their role, with any replacement
   * being a different user of that same role.
   */
  lemma DeleteGuardSpec(users: seq<User>, actor: User, userId: int, replacement: Option<int>)
    requires UsersOrdered(users)
    ensures DeleteGuard(users, actor, userId, replacement) == Ok <==> Deletable(users, actor, userId, replacement)
  {
    var found := FindUser(users, userId);
    if found.Some? {
      var u := found.value;
      CountRolePeer(users, u);
      if replacement.Some? {
        var w := FindUser(users, replacement.value);
        if exists x :: x in users && x.id == replacement.value && x.role == u.role {
          var x :| x in users && x.id == replacement.value && x.role == u.role;
          UserIdsUnique(users, x, w.value);
        }
      }
      forall v | v in users && v.id == userId
        ensures v == u
      {
        UserIdsUnique(users, v, u);
      }
    }
  }

  lemma UserIdsUnique(users: seq<User>, a: User, b: User)
    requires UsersOrdered(users) && a in users && b in users && a.id == b.id
    ensures a == b
  {
    var i :| 0 <= i < |users| && users[i] == a;
    var j :| 0 <= j < |users| && users[j] == b;
    assert i == j;
  }

  // ------------------------------------------------------- transfer to a replacement

  function Swap(x: int, u: int, r: int): int
  {
    if x == u then r else x
  }

  function SwapOpt(x: Option<int>, u: int, r: int): Option<int>
  {
    if x == Some(u) then Some(r) else x
  }

  function TransferLead(l: Lead, u: int, r: int): Lead
  {
    l.(submitter := Swap(l.submitter, u, r), currentManager := SwapOpt(l.currentManager, u, r),
       assignedBd := SwapOpt(l.assignedBd, u, r))
  }

  /** The fifteen UPDATEs of the replacement branch, on the tables the model holds. */
  function Transferred(t: Tables, u: int, r: int): Tables
  {
    t.(leads := map id | id in t.leads :: TransferLead(t.leads[id], u, r),
       activities := MapRows(t.activities, (a: Activity) => a.(actorId := Swap(a.actorId, u, r))),
       assignments := MapRows(t.assignments, (a: Assignment) => a.(managerId := Swap(a.managerId, u, r))),
       bdHistory := MapRows(t.bdHistory, (h: BdHistory) =>
         h.(toBd := Swap(h.toBd, u, r), fromBd := SwapOpt(h.fromBd, u, r), assignedBy := Swap(h.assignedBy, u, r))),
       editChanges := MapRows(t.editChanges, (e: EditChange) => e.(editor := Swap(e.editor, u, r))),
       stageHistory := MapRows(t.stageHistory, (h: StageHistory) => h.(changedBy := Swap(h.changedBy, u, r))),
       reassignments := MapRows(t.reassignments, (x: Reassignment) =>
         x.(fromManager := Swap(x.fromManager, u, r), toManager := Swap(x.toManager, u, r))))
  }

  /** No row of the columns both branches rewrite names user `u`. */
  predicate NoReferenceTo(t: Tables, u: int)
  {
    (forall id :: id in t.leads ==>
      t.leads[id].submitter != u && t.leads[id].currentManager != Some(u) && t.leads[id].assignedBd != Some(u)) &&
    (forall a :: a in t.activities ==> a.actorId != u) &&
    (forall a :: a in t.assignments ==> a.managerId != u) &&
    (forall h :: h in t.bdHistory ==> h.toBd != u && h.fromBd != Some(u) && h.assignedBy != u) &&
    (forall e :: e in t.editChanges ==> e.editor != u) &&
    (forall h :: h in t.stageHistory ==> h.changedBy != u) &&
    (forall x :: x in t.reassignments ==> x.fromManager != u && x.toManager != u)
  }

  /** Some row, in any table of the model that references `users`, still names `u`. */
  predicate NamesUser(t: Tables, u: int)
  {
    !NoReferenceTo(t, u) ||
    (exists n :: n in t.notes && n.author == u) ||
    (exists n :: n in t.notifications && n.userId == u) ||
    StageBy(t, u)
  }

  /** Some row, in any table of the model that references `leads`, names one of the leads in `gone`. */
  predicate NamesLead(t: Tables, gone: set<int>)
  {
    (exists n :: n in t.notes && n.leadId in gone) ||
    (exists n :: n in t.notifications && n.leadId in gone) ||
    (exists a :: a in t.activities && a.leadId in gone) ||
    (exists a :: a in t.assignments && a.leadId in gone) ||
    (exists x :: x in t.reassignments && x.leadId in gone) ||
    (exists h :: h in t.bdHistory && h.leadId in gone) ||
    (exists h :: h in t.stageHistory && h.leadId in gone) ||
    (exists e :: e in t.editChanges && e.leadId in gone)
  }

  predicate NoteBy(t: Tables, u: int)
  {
    exists n :: n in t.notes && n.author == u
  }

  /** Some pipeline stage names `u` in `created_by_id`, which no ON DELETE action covers. */
  predicate StageBy(t: Tables, u: int)
  {
    exists s :: s in t.stages && s.createdBy == u
  }

  /**
   * Handing over to another user keeps every lead and every row, and the
   * only rows left naming the deleted user are the notes they wrote, the
   * notifications sent to them and the stages they created: neither
   * `lead_notes` nor `pipeline_stages` is among the fifteen UPDATEs.
   */
  lemma TransferSpec(t: Tables, u: int, r: int)
    requires r != u
    ensures var t' := Transferred(t, u, r);
      NoReferenceTo(t', u) && t'.leads.Keys == t.leads.Keys &&
      |t'.activities| == |t.activities| && |t'.assignments| == |t.assignments| && |t'.bdHistory| == |t.bdHistory| &&
      t'.notes == t.notes && t'.users == t.users && t'.notifications == t.notifications &&
      (NamesUser(t', u) <==> NoteBy(t, u) || StageBy(t, u) || exists n :: n in t.notifications && n.userId == u)
  {
  }

  // ------------------------------------------------------- cascade without a replacement

  function Unlink(l: Lead, u: int): Lead
  {
    l.(currentManager := if l.currentManager == Some(u) then None else l.currentManager,
       assignedBd := if l.assignedBd == Some(u) then None else l.assignedBd)
  }

  /** The leads the user submitted. */
  function Own(t: Tables, u: int): set<int>
  {
    set id | id in t.leads && t.leads[id].submitter == u
  }

  /** The nulling UPDATEs and the twenty DELETEs of the branch without a replacement. */
  function Cascaded(t: Tables, u: int): Tables
  {
    var own := Own(t, u);
    t.(leads := map id | id in t.leads && t.leads[id].submitter != u :: Unlink(t.leads[id], u),
       editChanges := Filter(t.editChanges, (e: EditChange) => e.editor != u && e.leadId !in own),
       stageHistory := Filter(t.stageHistory, (h: StageHistory) => h.changedBy != u && h.leadId !in own),
       reassignments := Filter(t.reassignments, (x: Reassignment) => x.fromManager != u && x.toManager != u && x.leadId !in own),
       activities := Filter(t.activities, (a: Activity) => a.actorId != u && a.leadId !in own),
       assignments := Filter(t.assignments, (a: Assignment) => a.managerId != u && a.leadId !in own),
       bdHistory := Filter(t.bdHistory, (h: BdHistory) =>
         h.toBd != u && h.fromBd != Some(u) && h.assignedBy != u && h.leadId !in own),
       notifications := Filter(t.notifications, (n: Notification) => n.leadId !in own))
  }

  /**
   * Without a replacement, the user's leads and every row naming the user or
   * hanging off those leads are gone, and the other leads lose the user as
   * manager or BD; nothing else is removed. The notes are not touched, so
   * the only rows left naming a removed lead are the notes on it.
   */
  lemma CascadeSpec(t: Tables, u: int)
    ensures var t' := Cascaded(t, u);
      NoReferenceTo(t', u) &&
      (forall id :: id in t'.leads <==> id in t.leads && t.leads[id].submitter != u) &&
      t.leads.Keys - t'.leads.Keys == Own(t, u) &&
      (forall a :: a in t'.activities <==>
        (a in t.activities && a.actorId != u && (a.leadId in t.leads ==> t.leads[a.leadId].submitter != u))) &&
      (forall n :: n in t'.notifications <==>
        (n in t.notifications && (n.leadId in t.leads ==> t.leads[n.leadId].submitter != u))) &&
      t'.notes == t.notes && t'.users == t.users &&
      (NamesLead(t', Own(t, u)) <==> exists n :: n in t.notes && n.leadId in Own(t, u))
  {
    var own := Own(t, u);
    var t' := Cascaded(t, u);
    FilterMembers(t.editChanges, (e: EditChange) => e.editor != u && e.leadId !in own);
    FilterMembers(t.stageHistory, (h: StageHistory) => h.changedBy != u && h.leadId !in own);
    FilterMembers(t.reassignments, (x: Reassignment) => x.fromManager != u && x.toManager != u && x.leadId !in own);
    FilterMembers(t.activities, (a: Activity) => a.actorId != u && a.leadId !in own);
    FilterMembers(t.assignments, (a: Assignment) => a.managerId != u && a.leadId !in own);
    FilterMembers(t.bdHistory, (h: BdHistory) => h.toBd != u && h.fromBd != Some(u) && h.assignedBy != u && h.leadId !in own);
    FilterMembers(t.notifications, (n: Notification) => n.leadId !in own);
    assert t.leads.Keys - t'.leads.Keys == own;
  }

  // ------------------------------------------------------- the whole deletion

  /** Both branches, then the user's own notifications and the user row go. */
  function AfterDelete(t: Tables, u: int, replacement: Option<int>): Tables
  {
    var t1 := if replacement.Some? then Transferred(t, u, replacement.value) else Cascaded(t, u);
    t1.(notifications := Filter(t1.notifications, (n: Notification) => n.userId != u),
        users := Filter(t1.users, (x: User) => x.id != u))
  }

  /** The manager pointer after the replacement branch's UPDATE of `assignment_settings`. */
  function ManagerPointerAfter(last: Option<int>, u: User, replacement: Option<int>): Option<int>
  {
    if replacement.Some? && u.role == Manager && last == Some(u.id) then replacement else last
  }

  /** The BD pointer after the replacement branch's UPDATE of `assignment_settings`. */
  function BdPointerAfter(last: Option<int>, u: User, replacement: Option<int>): Option<int>
  {
    if replacement.Some? && u.role == BdSales && last == Some(u.id) then replacement else last
  }

  /**
   * Once the statements have run, a row still naming the user or one of the
   * leads the branch removed. Foreign keys are enforced on every connection
   * and none has an ON DELETE action, so the final `DELETE FROM leads` or
   * `DELETE FROM users` then raises and the handler rolls back.
   */
  predicate Blocked(t: Tables, t': Tables, u: int, lastManager: Option<int>, lastBd: Option<int>)
  {
    NamesUser(t', u) || NamesLead(t', t.leads.Keys - t'.leads.Keys) ||
    lastManager == Some(u) || lastBd == Some(u)
  }

  /** The statements of the `try` block after a passed guard: committed, or rolled back with "Error deleting user". */
  function Commit(t: Tables, lastManager: Option<int>, lastBd: Option<int>, u: User, replacement: Option<int>): Outcome
  {
    var t' := AfterDelete(t, u.id, replacement);
    if Blocked(t, t', u.id, ManagerPointerAfter(lastManager, u, replacement), BdPointerAfter(lastBd, u, replacement))
    then Failed else Ok
  }

  /** `delete_user` as written: its guard, then the statements. */
  function DeleteOutcomeAsWritten(t: Tables, lastManager: Option<int>, lastBd: Option<int>,
                                  actor: User, userId: int, replacement: Option<int>): Outcome
  {
    var g := DeleteGuardAsWritten(t.users, actor, userId, replacement);
    if g != Ok then g
    else match FindUser(t.users, userId)
      case None => NotFound
      case Some(u) => Commit(t, lastManager, lastBd, u, replacement)
  }

  /** `delete_user` with the corrected guard. */
  function DeleteOutcome(t: Tables, lastManager: Option<int>, lastBd: Option<int>,
                         actor: User, userId: int, replacement: Option<int>): Outcome
  {
    var g := DeleteGuard(t.users, actor, userId, replacement);
    if g != Ok then g
    else match FindUser(t.users, userId)
      case None => NotFound
      case Some(u) => Commit(t, lastManager, lastBd, u, replacement)
  }

  /**
   * With a replacement of another id, the deletion commits iff the user wrote
   * no note, created no stage and the pointer of the other role does not name
   * them; without a replacement, iff no note was written by the user or on one
   * of their leads, they created no stage and neither pointer names them.
   */
  lemma CommitSpec(t: Tables, lastManager: Option<int>, lastBd: Option<int>, u: User, replacement: Option<int>)
    requires replacement != Some(u.id)
    ensures Commit(t, lastManager, lastBd, u, replacement) == Ok <==>
      !NoteBy(t, u.id) && !StageBy(t, u.id) &&
      (replacement.None? ==> !exists n :: n in t.notes && n.leadId in Own(t, u.id)) &&
      (lastManager == Some(u.id) ==> replacement.Some? && u.role == Manager) &&
      (lastBd == Some(u.id) ==> replacement.Some? && u.role == BdSales)
  {
    if replacement.Some? {
      TransferredLeftovers(t, u.id, replacement.value);
    } else {
      CascadedLeftovers(t, u.id);
    }
  }

  /** After a handover, the only rows still naming the user are their notes and their stages, and no lead is removed. */
  lemma TransferredLeftovers(t: Tables, u: int, r: int)
    requires r != u
    ensures var t' := AfterDelete(t, u, Some(r));
      (NamesUser(t', u) || NamesLead(t', t.leads.Keys - t'.leads.Keys)) <==> NoteBy(t, u) || StageBy(t, u)
  {
    var t1 := Transferred(t, u, r);
    var t' := AfterDelete(t, u, Some(r));
    FilterMembers(t1.notifications, (n: Notification) => n.userId != u);
    TransferSpec(t, u, r);
    assert t.leads.Keys - t'.leads.Keys == {};
  }

  /**
   * After the cascade, the rows still naming the user or a removed lead are
   * their notes, their stages and the notes on their leads.
   */
  lemma CascadedLeftovers(t: Tables, u: int)
    ensures var t' := AfterDelete(t, u, None);
      (NamesUser(t', u) || NamesLead(t', t.leads.Keys - t'.leads.Keys)) <==>
        NoteBy(t, u) || StageBy(t, u) || exists n :: n in t.notes && n.leadId in Own(t, u)
  {
    var t1 := Cascaded(t, u);
    var t' := AfterDelete(t, u, None);
    FilterMembers(t1.notifications, (n: Notification) => n.userId != u);
    CascadeSpec(t, u);
    assert NamesLead(t', Own(t, u)) <==> NamesLead(t1, Own(t, u));
  }

  /**
   * A user who wrote any note (every submitter and every reviewer of a lead
   * does) or created a stage can never be deleted.
   */
  lemma AuthorBlocksDelete(t: Tables, lastManager: Option<int>, lastBd: Option<int>,
                           actor: User, userId: int, replacement: Option<int>)
    requires NoteBy(t, userId) || StageBy(t, userId)
    ensures DeleteOutcome(t, lastManager, lastBd, actor, userId, replacement) != Ok
  {
    if DeleteGuard(t.users, actor, userId, replacement) == Ok {
      var u := FindUser(t.users, userId).value;
      CommitSpec(t, lastManager, lastBd, u, replacement);
    }
  }

  lemma FilterUsersOrdered(users: seq<User>, u: int)
    requires UsersOrdered(users)
    ensures UsersOrdered(Filter(users, (x: User) => x.id != u))
  {
    FilterKeepsOrdered(users, (x: User) => x.id != u);
  }

  /** Dropping rows from a list ordered by id leaves it ordered. */
  lemma {:induction false} FilterKeepsOrdered(users: seq<User>, keep: User -> bool)
    requires UsersOrdered(users)
    ensures UsersOrdered(Filter(users, keep))
    decreases |users|
  {
    if |users| > 0 {
      assert UsersOrdered(users[1..]);
      FilterKeepsOrdered(users[1..], keep);
      FilterMembers(users[1..], keep);
      var rest := Filter(users[1..], keep);
      forall k | 0 <= k < |rest|
        ensures users[0].id < rest[k].id
      {
        assert rest[k] in users[1..];
        var j :| 0 <= j < |users[1..]| && users[1..][j] == rest[k];
        assert users[j + 1] == rest[k];
      }
      if keep(users[0]) {
        ConsOrdered(users[0], rest);
      }
    }
  }

  /** A row with a positive id below every id of an ordered list can head it. */
  lemma ConsOrdered(x: User, rest: seq<User>)
    requires x.id > 0 && UsersOrdered(rest)
    requires forall k :: 0 <= k < |rest| ==> x.id < rest[k].id
    ensures UsersOrdered([x] + rest)
  {
    var s := [x] + rest;
    assert forall k :: 0 < k < |s| ==> s[k] == rest[k - 1];
  }

  lemma {:induction false} FilterActivitiesFresh(acts: seq<Activity>, keep: Activity -> bool, next: int)
    requires ActivityIdsFresh(acts, next)
    ensures ActivityIdsFresh(Filter(acts, keep), next)
    decreases |acts|
  {
    if |acts| > 0 {
      assert ActivityIdsFresh(acts[1..], next);
      FilterActivitiesFresh(acts[1..], keep, next);
      FilterMembers(acts[1..], keep);
      var rest := Filter(acts[1..], keep);
      forall k | 0 <= k < |rest|
        ensures acts[0].id != rest[k].id
      {
        assert rest[k] in acts[1..];
        var j :| 0 <= j < |acts[1..]| && acts[1..][j] == rest[k];
        assert acts[j + 1] == rest[k];
      }
    }
  }

  lemma DeleteKeepsValid(t: Tables, u: int, replacement: Option<int>)
    requires TablesValid(t)
    ensures TablesValid(AfterDelete(t, u, replacement))
  {
    FilterUsersOrdered(t.users, u);
    if replacement.None? {
      FilterActivitiesFresh(t.activities, (a: Activity) => a.actorId != u && a.leadId !in Own(t, u), t.nextActivityId);
    }
  }

  /**
   * A committed deletion leaves the user gone, with no row and no rotation
   * pointer naming them, no row naming a lead it removed, and the notes and
   * stages as they were (none of them by the user).
   */
  lemma DeleteRemovesUser(t: Tables, lastManager: Option<int>, lastBd: Option<int>,
                          actor: User, userId: int, replacement: Option<int>)
    requires DeleteOutcome(t, lastManager, lastBd, actor, userId, replacement) == Ok
    ensures var t' := AfterDelete(t, userId, replacement);
      var u := FindUser(t.users, userId).value;
      FindUser(t'.users, userId).None? && !NamesUser(t', userId) &&
      !NamesLead(t', t.leads.Keys - t'.leads.Keys) &&
      ManagerPointerAfter(lastManager, u, replacement) != Some(userId) &&
      BdPointerAfter(lastBd, u, replacement) != Some(userId) &&
      t'.notes == t.notes && t'.stages == t.stages && !NoteBy(t, userId) && !StageBy(t, userId)
  {
    var u := FindUser(t.users, userId).value;
    var t1 := if replacement.Some? then Transferred(t, userId, replacement.value) else Cascaded(t, userId);
    FilterMembers(t1.users, (x: User) => x.id != userId);
    CommitSpec(t, lastManager, lastBd, u, replacement);
  }

  /**
   * As written, naming the deleted user as their own replacement passes the
   * guard and the transfer changes nothing, so their leads still name them
   * and the `DELETE FROM users` fails: the program rolls back with "Error
   * deleting user" where the corrected guard answers 400.
   */
  lemma SelfReplacementAsWritten(t: Tables, lastManager: Option<int>, lastBd: Option<int>, actor: User, u: User, leadId: int)
    requires UsersOrdered(t.users) && u in t.users && !u.isProtected && actor.role == Admin && actor.id != u.id
    requires CountRole(t.users, u.role) >= 2
    requires leadId in t.leads && t.leads[leadId].submitter == u.id
    ensures DeleteGuardAsWritten(t.users, actor, u.id, Some(u.id)) == Ok
    ensures DeleteOutcomeAsWritten(t, lastManager, lastBd, actor, u.id, Some(u.id)) == Failed
    ensures DeleteOutcome(t, lastManager, lastBd, actor, u.id, Some(u.id)) == BadRequest
  {
    var f := FindUser(t.users, u.id);
    UserIdsUnique(t.users, f.value, u);
    var t' := AfterDelete(t, u.id, Some(u.id));
    assert leadId in t'.leads && t'.leads[leadId].submitter == u.id;
  }

  /** `delete_user` with the corrected guard. */
  method DeleteUser(db: Db, actor: User, userId: int, replacement: Option<int>) returns (r: Outcome)
    requires db.Valid()
    modifies db, db.settings
    ensures db.Valid()
    ensures r == DeleteOutcome(old(db.tables), old(db.settings.lastManagerId), old(db.settings.lastBdId), actor, userId, replacement)
    ensures r != Ok ==> (db.tables == old(db.tables) &&
      db.settings.lastManagerId == old(db.settings.lastManagerId) && db.settings.lastBdId == old(db.settings.lastBdId))
    ensures r == Ok ==> db.tables == AfterDelete(old(db.tables), userId, replacement)
    ensures r == Ok ==> (var u := FindUser(old(db.tables.users), userId).value;
      db.settings.lastManagerId == ManagerPointerAfter(old(db.settings.lastManagerId), u, replacement) &&
      db.settings.lastBdId == BdPointerAfter(old(db.settings.lastBdId), u, replacement))
  {
    var t := db.tables;
    r := DeleteGuard(t.users, actor, userId, replacement);
    if r != Ok {
      return;
    }
    var user := FindUser(t.users, userId).value;
    r := Commit(t, db.settings.lastManagerId, db.settings.lastBdId, user, replacement);
    if r != Ok {
      return;
    }
    DeleteKeepsValid(t, userId, replacement);
    db.tables := AfterDelete(t, userId, replacement);
    if replacement.Some? {
      db.settings.ReplacePointer(user.role, userId, replacement.value);
    }
  }
}
