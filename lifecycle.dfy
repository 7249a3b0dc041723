/**
 * The lead lifecycle request handlers: submission (with automatic manager
 * assignment), accept, reject, revert, resubmit, BD assignment, pipeline stage
 * moves and task completion. Each handler is one transaction: it answers Ok
 * after its writes, or refuses before any write. Each `After…` function is the
 * state a successful call leaves; the lemmas beside it say what that state means.
 */
module Lifecycle {
  import opened Wrappers
  import opened Schema
  import opened RoundRobin
  import opened Store
  import opened Services
  import opened Forms

  const InitialDeadline := 15 * SecondsPerHour
  const ReassignDeadline := 4 * SecondsPerHour

  predicate Reviewer(r: Role)
  {
    r == Admin || r == Manager
  }

  /** The name column of a user row, "" for an id with no row. */
  function NameOf(users: seq<User>, id: int): string
  {
    match FindUser(users, id)
    case Some(u) => u.name
    case None => ""
  }

  // ---------------------------------------------------------------- submission

  function SubmittedLead(actor: User, contact: Contact, services: seq<nat>, attachment: Option<string>,
                         manager: Option<int>, now: int): Lead
  {
    Lead(actor.id, contact, ServicesCsv(services), attachment, Pending, manager,
         if manager.Some? then Some(now) else None, None, None, None, None, now)
  }

  function AutoAssignNote(managerName: string, roundRobin: bool): string
  {
    "Auto-assigned to " + managerName + (if roundRobin then " (round-robin distribution)" else "")
  }

  /** The tables after a submission that chose `manager` (None: nobody available). */
  function AfterSubmit(t: Tables, actor: User, contact: Contact, services: seq<nat>, attachment: Option<string>,
                       manager: Option<int>, roundRobin: bool, now: int): Tables
  {
    var id := t.nextLeadId;
    var lead := SubmittedLead(actor, contact, services, attachment, manager, now);
    var created := Note(id, actor.id, SystemNote, "Lead created by " + actor.name, now);
    match manager
    case None =>
      t.(leads := t.leads[id := lead], nextLeadId := id + 1, notes := t.notes + [created])
    case Some(m) =>
      t.(leads := t.leads[id := lead], nextLeadId := id + 1,
         notes := t.notes + [created, Note(id, actor.id, SystemNote, AutoAssignNote(NameOf(t.users, m), roundRobin), now)],
         assignments := t.assignments + [Assignment(id, m, now, now + InitialDeadline, None, AssignmentPending, true)],
         notifications := t.notifications + [Notification(m, id, "New lead from " + actor.name + " has been assigned to you: " + contact.company,
                                                          AssignmentKind, false, true, now)])
  }

  /**
   * A submission adds one 'Pending' lead under a fresh id and touches no other
   * lead; an initial assignment row (deadline 15 hours on) and exactly one
   * 'assignment' notification to the manager exist iff a manager was chosen.
   */
  lemma SubmitEffects(t: Tables, actor: User, contact: Contact, services: seq<nat>, attachment: Option<string>,
                      manager: Option<int>, roundRobin: bool, now: int)
    requires TablesValid(t)
    ensures var t' := AfterSubmit(t, actor, contact, services, attachment, manager, roundRobin, now);
      var id := t.nextLeadId;
      id !in t.leads && t'.leads.Keys == t.leads.Keys + {id} &&
      (forall k :: k in t.leads ==> t'.leads[k] == t.leads[k]) &&
      t'.leads[id].status == Pending && t'.leads[id].submitter == actor.id &&
      t'.leads[id].currentManager == manager &&
      TablesValid(t') && t'.users == t.users &&
      (manager.None? ==> t'.assignments == t.assignments && t'.notifications == t.notifications) &&
      (manager.Some? ==>
        |t'.assignments| == |t.assignments| + 1 && t'.assignments[..|t.assignments|] == t.assignments &&
        var a := t'.assignments[|t.assignments|];
        a.leadId == id && a.managerId == manager.value && a.isInitial && a.status == AssignmentPending &&
        a.deadlineAt == now + 15 * 3600 &&
        |t'.notifications| == |t.notifications| + 1 && t'.notifications[..|t.notifications|] == t.notifications &&
        t'.notifications[|t.notifications|].userId == manager.value &&
        t'.notifications[|t.notifications|].kind == AssignmentKind)
  {
  }

  /**
   * `new_lead`. Only marketers and managers may submit, and only a form that
   * validates against the offered services is stored. A marketer's lead goes
   * to the manager after the rotation pointer, which moves in the same
   * transaction; a manager's lead goes to some other manager.
   */
  method SubmitLead(db: Db, actor: User, contact: Contact, services: seq<nat>, offered: seq<nat>,
                    attachment: Option<string>, now: int)
    returns (r: Outcome, leadId: Option<int>, manager: Option<int>)
    requires db.Valid()
    modifies db, db.settings
    ensures db.Valid()
    ensures r == Forbidden <==> actor.role != Marketer && actor.role != Manager
    ensures r == BadRequest <==> (actor.role == Marketer || actor.role == Manager) && !LeadFormValid(contact, services, offered)
    ensures r == Ok <==> (actor.role == Marketer || actor.role == Manager) && LeadFormValid(contact, services, offered)
    ensures r != Ok ==> db.tables == old(db.tables) && unchanged(db.settings) && leadId.None? && manager.None?
    ensures r == Ok ==> (leadId == Some(old(db.tables.nextLeadId)) &&
      db.tables == AfterSubmit(old(db.tables), actor, contact, services, attachment, manager, actor.role == Marketer, now))
    ensures r == Ok && actor.role == Marketer ==>
      manager == NextInRotation(PoolIds(old(db.tables.users), Manager), old(db.settings.lastManagerId)) &&
      db.settings.lastManagerId == (if manager.Some? then manager else old(db.settings.lastManagerId))
    ensures r == Ok && actor.role == Manager ==>
      unchanged(db.settings) &&
      (manager.Some? <==> |Without(PoolIds(old(db.tables.users), Manager), actor.id)| > 0) &&
      (manager.Some? ==> manager.value in PoolIds(old(db.tables.users), Manager) && manager.value != actor.id)
    ensures db.settings.lastBdId == old(db.settings.lastBdId)
  {
    leadId, manager := None, None;
    if actor.role != Marketer && actor.role != Manager {
      return Forbidden, leadId, manager;
    }
    if !LeadFormValid(contact, services, offered) {
      return BadRequest, leadId, manager;
    }
    var t := db.tables;
    if actor.role == Marketer {
      manager := db.settings.TakeNextManager(t.users);
    } else {
      var others := Without(PoolIds(t.users, Manager), actor.id);
      if |others| > 0 {
        assert others[0] in others;
        var m :| m in others;
        manager := Some(m);
      }
    }
    var id := t.nextLeadId;
    db.tables := AfterSubmit(t, actor, contact, services, attachment, manager, actor.role == Marketer, now);
    SubmitEffects(t, actor, contact, services, attachment, manager, actor.role == Marketer, now);
    leadId := Some(id);
    r := Ok;
  }

  // ---------------------------------------------------------------- accept

  /** The acting manager's pending rows for the lead become 'acted' at `now`. */
  function MarkActed(rows: seq<Assignment>, leadId: int, managerId: int, now: int): (r: seq<Assignment>)
    ensures |r| == |rows|
  {
    seq(|rows|, i requires 0 <= i < |rows| =>
      var a := rows[i];
      if a.leadId == leadId && a.managerId == managerId && a.status == AssignmentPending
      then a.(actedAt := Some(now), status := Acted) else a)
  }

  /**
   * After accepting, the acting manager holds no pending row for the lead;
   * rows of other managers or other leads, and rows in any other status, are
   * untouched; a changed row keeps its lead, manager and deadline.
   */
  lemma MarkActedEffect(rows: seq<Assignment>, leadId: int, managerId: int, now: int)
    ensures var r := MarkActed(rows, leadId, managerId, now);
      (forall i :: 0 <= i < |r| && r[i].leadId == leadId && r[i].managerId == managerId ==> r[i].status != AssignmentPending) &&
      (forall i :: 0 <= i < |r| && (rows[i].leadId != leadId || rows[i].managerId != managerId || rows[i].status != AssignmentPending) ==> r[i] == rows[i]) &&
      (forall i :: 0 <= i < |r| && r[i] != rows[i] ==>
        r[i].status == Acted && r[i].actedAt == Some(now) && rows[i].status == AssignmentPending &&
        r[i].leadId == leadId && r[i].managerId == managerId && r[i].deadlineAt == rows[i].deadlineAt)
  {
  }

  function AfterAccept(t: Tables, actor: User, leadId: int, now: int): Tables
    requires leadId in t.leads
  {
    var lead := t.leads[leadId];
    t.(leads := t.leads[leadId := lead.(status := Accepted, acceptedAt := Some(now))],
       assignments := MarkActed(t.assignments, leadId, actor.id, now),
       notes := t.notes + [Note(leadId, actor.id, SystemNote, "Lead accepted by " + actor.name, now)],
       notifications := t.notifications + [Notification(lead.submitter, leadId, "Your lead for " + lead.contact.company + " has been accepted!",
                                                        Info, false, true, now)])
  }

  /** `accept_lead`: admins and managers only; there is no check of the current status. */
  method AcceptLead(db: Db, actor: User, leadId: int, now: int) returns (r: Outcome)
    requires db.Valid()
    modifies db
    ensures db.Valid()
    ensures r == Ok <==> Reviewer(actor.role) && leadId in old(db.tables.leads)
    ensures r == Forbidden <==> !Reviewer(actor.role)
    ensures r != Ok ==> db.tables == old(db.tables)
    ensures r == Ok ==> db.tables == AfterAccept(old(db.tables), actor, leadId, now)
  {
    if !Reviewer(actor.role) {
      return Forbidden;
    }
    var t := db.tables;
    if leadId !in t.leads {
      return NotFound;
    }
    var lead := t.leads[leadId];
    var u := t.(leads := t.leads[leadId := lead.(status := Accepted, acceptedAt := Some(now))]);
    u := u.(assignments := MarkActed(t.assignments, leadId, actor.id, now));
    u := u.(notes := t.notes + [Note(leadId, actor.id, SystemNote, "Lead accepted by " + actor.name, now)]);
    var message := "Your lead for " + lead.contact.company + " has been accepted!";
    u := u.(notifications := t.notifications + [Notification(lead.submitter, leadId, message, Info, false, true, now)]);
    SameKeysValid(t, u);
    db.tables := u;
    r := Ok;
  }

  // ---------------------------------------------------------------- reject

  function AfterReject(t: Tables, actor: User, leadId: int, comment: string, now: int): Tables
    requires leadId in t.leads
  {
    var lead := t.leads[leadId];
    t.(leads := t.leads[leadId := lead.(status := Rejected)],
       notes := t.notes + [Note(leadId, actor.id, RejectionNote, comment, now)],
       notifications := t.notifications + [Notification(lead.submitter, leadId,
         "Your lead for " + lead.contact.company + " has been rejected. Please review the comments.", Info, false, true, now)])
  }

  /**
   * `reject_lead`: admins and managers only, for an existing lead whatever its
   * status, with a comment that validates (checked after the lead is found).
   */
  method RejectLead(db: Db, actor: User, leadId: int, comment: string, now: int) returns (r: Outcome)
    requires db.Valid()
    modifies db
    ensures db.Valid()
    ensures r == Ok <==> Reviewer(actor.role) && leadId in old(db.tables.leads) && CommentValid(comment)
    ensures r == Forbidden <==> !Reviewer(actor.role)
    ensures r == NotFound <==> Reviewer(actor.role) && leadId !in old(db.tables.leads)
    ensures r == BadRequest <==> Reviewer(actor.role) && leadId in old(db.tables.leads) && !CommentValid(comment)
    ensures r != Ok ==> db.tables == old(db.tables)
    ensures r == Ok ==> db.tables == AfterReject(old(db.tables), actor, leadId, comment, now)
  {
    if !Reviewer(actor.role) {
      return Forbidden;
    }
    var t := db.tables;
    if leadId !in t.leads {
      return NotFound;
    }
    if !CommentValid(comment) {
      return BadRequest;
    }
    var lead := t.leads[leadId];
    var u := t.(leads := t.leads[leadId := lead.(status := Rejected)]);
    u := u.(notes := t.notes + [Note(leadId, actor.id, RejectionNote, comment, now)]);
    var message := "Your lead for " + lead.contact.company + " has been rejected. Please review the comments.";
    u := u.(notifications := t.notifications + [Notification(lead.submitter, leadId, message, Info, false, true, now)]);
    SameKeysValid(t, u);
    db.tables := u;
    r := Ok;
  }

  /** Accept and reject are the only handlers that set those statuses, and neither reads the old one. */
  lemma AcceptRejectIgnoreStatus(t: Tables, actor: User, leadId: int, comment: string, now: int)
    requires leadId in t.leads
    ensures AfterAccept(t, actor, leadId, now).leads[leadId].status == Accepted
    ensures AfterReject(t, actor, leadId, comment, now).leads[leadId].status == Rejected
    ensures AfterAccept(t, actor, leadId, now).leads - {leadId} == t.leads - {leadId}
    ensures AfterReject(t, actor, leadId, comment, now).leads - {leadId} == t.leads - {leadId}
  {
  }

  // ---------------------------------------------------------------- revert

  /** Every 'acted' row of the lead becomes 'reverted'. */
  function RevertActed(rows: seq<Assignment>, leadId: int): (r: seq<Assignment>)
    ensures |r| == |rows|
  {
    seq(|rows|, i requires 0 <= i < |rows| =>
      if rows[i].leadId == leadId && rows[i].status == Acted then rows[i].(status := Reverted) else rows[i])
  }

  function AfterRevert(t: Tables, actor: User, leadId: int, comment: string, now: int): Tables
    requires leadId in t.leads
  {
    var lead := t.leads[leadId];
    t.(leads := t.leads[leadId := lead.(status := Rejected, acceptedAt := None, currentManager := Some(actor.id))],
       assignments := RevertActed(t.assignments, leadId) + [Assignment(leadId, actor.id, now, now + ReassignDeadline, None, AssignmentPending, false)],
       notes := t.notes + [Note(leadId, actor.id, ReversionNote, RevertReason(actor.name, comment), now)],
       notifications := t.notifications + [Notification(lead.submitter, leadId,
         RevertMessage(lead.contact.company, actor.name), Info, false, true, now)])
  }

  function RevertReason(name: string, comment: string): string
  {
    "Lead reverted from 'Accepted' to 'Rejected' by " + name + ".\nReason: " + comment
  }

  function RevertMessage(company: string, name: string): string
  {
    "Your accepted lead for " + company + " has been re-rejected by " + name + ". Please review the comments."
  }

  /**
   * A revert leaves the lead 'Rejected', not accepted and owned by the actor;
   * no 'acted' row of the lead survives, other rows keep their status, and
   * exactly one row is appended: a non-initial pending row for the actor due
   * in 4 hours.
   */
  lemma RevertEffects(t: Tables, actor: User, leadId: int, comment: string, now: int)
    requires leadId in t.leads
    ensures var t' := AfterRevert(t, actor, leadId, comment, now);
      var n := |t.assignments|;
      t'.leads[leadId].status == Rejected && t'.leads[leadId].acceptedAt.None? &&
      t'.leads[leadId].currentManager == Some(actor.id) &&
      |t'.assignments| == n + 1 &&
      (forall i :: 0 <= i < n && t'.assignments[i].leadId == leadId ==> t'.assignments[i].status != Acted) &&
      (forall i :: 0 <= i < n ==> (t'.assignments[i] == t.assignments[i] <==> !(t.assignments[i].leadId == leadId && t.assignments[i].status == Acted))) &&
      t'.assignments[n] == Assignment(leadId, actor.id, now, now + 4 * 3600, None, AssignmentPending, false)
  {
  }

  /**
   * `revert_lead`: admins and managers only, only for an accepted lead, and
   * with a comment that validates (checked after the status).
   */
  method RevertLead(db: Db, actor: User, leadId: int, comment: string, now: int) returns (r: Outcome)
    requires db.Valid()
    modifies db
    ensures db.Valid()
    ensures r == Ok <==> (Reviewer(actor.role) && leadId in old(db.tables.leads) && old(db.tables.leads[leadId].status) == Accepted &&
      CommentValid(comment))
    ensures r == BadRequest <==> (Reviewer(actor.role) && leadId in old(db.tables.leads) && old(db.tables.leads[leadId].status) == Accepted &&
      !CommentValid(comment))
    ensures r == InvalidState <==> Reviewer(actor.role) && leadId in old(db.tables.leads) && old(db.tables.leads[leadId].status) != Accepted
    ensures r != Ok ==> db.tables == old(db.tables)
    ensures r == Ok ==> db.tables == AfterRevert(old(db.tables), actor, leadId, comment, now)
  {
    if !Reviewer(actor.role) {
      return Forbidden;
    }
    var t := db.tables;
    if leadId !in t.leads {
      return NotFound;
    }
    var lead := t.leads[leadId];
    if lead.status != Accepted {
      return InvalidState;
    }
    if !CommentValid(comment) {
      return BadRequest;
    }
    var u := t.(leads := t.leads[leadId := lead.(status := Rejected, acceptedAt := None, currentManager := Some(actor.id))]);
    var rows := RevertActed(t.assignments, leadId);
    u := u.(assignments := rows + [Assignment(leadId, actor.id, now, now + ReassignDeadline, None, AssignmentPending, false)]);
    var reason := RevertReason(actor.name, comment);
    u := u.(notes := t.notes + [Note(leadId, actor.id, ReversionNote, reason, now)]);
    var message := RevertMessage(lead.contact.company, actor.name);
    u := u.(notifications := t.notifications + [Notification(lead.submitter, leadId, message, Info, false, true, now)]);
    SameKeysValid(t, u);
    db.tables := u;
    r := Ok;
  }

  /** Every status stored in the rows satisfies `check`. */
  predicate RowsAdmitted(rows: seq<Assignment>, check: string -> bool)
  {
    forall i :: 0 <= i < |rows| ==> check(AssignmentStatusName(rows[i].status))
  }

  /**
   * As written, the CHECK on `lead_assignments.status` refuses the revert's
   * UPDATE whenever the lead has an 'acted' row, i.e. whenever it was accepted
   * by its manager through `accept_lead`.
   */
  lemma RevertViolatesSchemaCheck(t: Tables, actor: User, leadId: int, comment: string, now: int, k: nat)
    requires leadId in t.leads && k < |t.assignments|
    requires t.assignments[k].leadId == leadId && t.assignments[k].status == Acted
    ensures !RowsAdmitted(AfterRevert(t, actor, leadId, comment, now).assignments, AssignmentStatusAllowedAsWritten)
  {
    var rows := AfterRevert(t, actor, leadId, comment, now).assignments;
    assert rows[k].status == Reverted;
    assert !AssignmentStatusAllowedAsWritten(AssignmentStatusName(rows[k].status));
  }

  /** With 'reverted' in the enumeration, the revert keeps every row admitted. */
  lemma RevertRespectsExtendedCheck(t: Tables, actor: User, leadId: int, comment: string, now: int)
    requires leadId in t.leads
    ensures RowsAdmitted(AfterRevert(t, actor, leadId, comment, now).assignments, AssignmentStatusAllowed)
  {
    var rows := AfterRevert(t, actor, leadId, comment, now).assignments;
    forall i | 0 <= i < |rows|
      ensures AssignmentStatusAllowed(AssignmentStatusName(rows[i].status))
    {
      EveryAssignmentStatusAllowed(rows[i].status);
    }
  }

  // ---------------------------------------------------------------- resubmit

  /** `SELECT id FROM users WHERE role IN ('admin', 'manager')`, in table order. */
  function ReviewerIds(users: seq<User>): (ids: seq<int>)
    ensures forall x :: x in ids <==> exists u :: u in users && Reviewer(u.role) && u.id == x
  {
    if |users| == 0 then []
    else (if Reviewer(users[0].role) then [users[0].id] else []) + ReviewerIds(users[1..])
  }

  /** One notification per recipient, in order. */
  function Notices(ids: seq<int>, leadId: int, message: string, now: int): (ns: seq<Notification>)
    ensures |ns| == |ids|
    ensures forall k :: 0 <= k < |ids| ==> ns[k] == Notification(ids[k], leadId, message, Info, false, true, now)
  {
    seq(|ids|, k requires 0 <= k < |ids| => Notification(ids[k], leadId, message, Info, false, true, now))
  }

  /** One more recipient gives one more notice at the end. */
  lemma NoticesStep(ids: seq<int>, leadId: int, message: string, now: int, i: nat)
    requires i < |ids|
    ensures Notices(ids[..i + 1], leadId, message, now) ==
      Notices(ids[..i], leadId, message, now) + [Notification(ids[i], leadId, message, Info, false, true, now)]
  {
    assert ids[..i + 1][i] == ids[i];
  }

  /** The `for m in managers: create_notification(…)` loop: one notice per recipient, in order, after the existing ones. */
  method NotifyEach(base: seq<Notification>, ids: seq<int>, leadId: int, message: string, now: int) returns (out: seq<Notification>)
    ensures out == base + Notices(ids, leadId, message, now)
  {
    out := base;
    for i := 0 to |ids|
      invariant out == base + Notices(ids[..i], leadId, message, now)
    {
      NoticesStep(ids, leadId, message, now, i);
      out := out + [Notification(ids[i], leadId, message, Info, false, true, now)];
    }
    assert ids[..|ids|] == ids;
  }

  function ResubmitMessage(company: string, name: string): string
  {
    "Lead for " + company + " has been resubmitted by " + name + " for re-review."
  }

  function AfterResubmit(t: Tables, actor: User, leadId: int, comment: string, now: int): Tables
    requires leadId in t.leads
  {
    var lead := t.leads[leadId];
    t.(leads := t.leads[leadId := lead.(status := Resubmitted)],
       notes := t.notes + [Note(leadId, actor.id, ResubmissionNote, comment, now)],
       notifications := t.notifications + Notices(ReviewerIds(t.users), leadId, ResubmitMessage(lead.contact.company, actor.name), now))
  }

  /** The notices appended after `base` reach exactly the listed recipients, and `base` stays in front. */
  lemma AppendedNoticesReach(base: seq<Notification>, ids: seq<int>, leadId: int, message: string, now: int, x: int)
    ensures var all := base + Notices(ids, leadId, message, now);
      all[..|base|] == base &&
      ((exists k :: |base| <= k < |all| && all[k].userId == x) <==> x in ids)
  {
    var ns := Notices(ids, leadId, message, now);
    var all := base + ns;
    if exists k :: |base| <= k < |all| && all[k].userId == x {
      var k :| |base| <= k < |all| && all[k].userId == x;
      assert ns[k - |base|].userId == x;
      assert ids[k - |base|] in ids;
    }
    if x in ids {
      var j :| 0 <= j < |ids| && ids[j] == x;
      assert all[|base| + j] == ns[j];
    }
  }

  /** A user receives a resubmission notice iff they are an admin or a manager. */
  lemma ResubmitNotifiesReviewers(t: Tables, actor: User, leadId: int, comment: string, now: int, x: int)
    requires leadId in t.leads
    ensures var t' := AfterResubmit(t, actor, leadId, comment, now);
      t'.leads[leadId].status == Resubmitted &&
      t'.notifications[..|t.notifications|] == t.notifications &&
      ((exists k :: |t.notifications| <= k < |t'.notifications| && t'.notifications[k].userId == x) <==>
       (exists u :: u in t.users && Reviewer(u.role) && u.id == x))
  {
    var ids := ReviewerIds(t.users);
    AppendedNoticesReach(t.notifications, ids, leadId, ResubmitMessage(t.leads[leadId].contact.company, actor.name), now, x);
  }

  /**
   * `resubmit_lead`: the submitter only (marketer or manager), only for a
   * rejected lead, and with a comment that validates (checked last).
   */
  method ResubmitLead(db: Db, actor: User, leadId: int, comment: string, now: int) returns (r: Outcome)
    requires db.Valid()
    modifies db
    ensures db.Valid()
    ensures r == Ok <==> ((actor.role == Marketer || actor.role == Manager) && leadId in old(db.tables.leads) &&
      old(db.tables.leads[leadId].submitter) == actor.id && old(db.tables.leads[leadId].status) == Rejected &&
      CommentValid(comment))
    ensures r == BadRequest <==> ((actor.role == Marketer || actor.role == Manager) && leadId in old(db.tables.leads) &&
      old(db.tables.leads[leadId].submitter) == actor.id && old(db.tables.leads[leadId].status) == Rejected &&
      !CommentValid(comment))
    ensures r == InvalidState <==> ((actor.role == Marketer || actor.role == Manager) && leadId in old(db.tables.leads) &&
      old(db.tables.leads[leadId].submitter) == actor.id && old(db.tables.leads[leadId].status) != Rejected)
    ensures r != Ok ==> db.tables == old(db.tables)
    ensures r == Ok ==> db.tables == AfterResubmit(old(db.tables), actor, leadId, comment, now)
  {
    if actor.role != Marketer && actor.role != Manager {
      return Forbidden;
    }
    var t := db.tables;
    if leadId !in t.leads {
      return NotFound;
    }
    var lead := t.leads[leadId];
    if lead.submitter != actor.id {
      return Forbidden;
    }
    if lead.status != Rejected {
      return InvalidState;
    }
    if !CommentValid(comment) {
      return BadRequest;
    }
    var u := t.(leads := t.leads[leadId := lead.(status := Resubmitted)],
                notes := t.notes + [Note(leadId, actor.id, ResubmissionNote, comment, now)]);
    var managers := ReviewerIds(t.users);
    var message := ResubmitMessage(lead.contact.company, actor.name);
    var sent := NotifyEach(t.notifications, managers, leadId, message, now);
    u := u.(notifications := sent);
    SameKeysValid(t, u);
    db.tables := u;
    r := Ok;
  }

  // ---------------------------------------------------------------- BD assignment

  /** `SELECT id FROM pipeline_stages ORDER BY position LIMIT 1`: a stage of least position. */
  function FirstStage(stages: seq<Stage>): (r: Option<Stage>)
    ensures r.None? <==> |stages| == 0
    ensures r.Some? ==> r.value in stages && forall s :: s in stages ==> r.value.position <= s.position
  {
    if |stages| == 0 then None
    else
      var rest := FirstStage(stages[1..]);
      if rest.Some? && rest.value.position < stages[0].position then rest else Some(stages[0])
  }

  function BdActionText(reassign: bool): string
  {
    if reassign then "Reassigned" else "Assigned"
  }

  function BdDescription(actorName: string, reassign: bool, bdName: string, note: string): string
  {
    actorName + " " + (if reassign then "reassigned" else "assigned") + " this lead to " + bdName
      + (if note != "" then "\n\nNote: " + note else "")
  }

  function AfterAssignBd(t: Tables, actor: User, leadId: int, bdId: int, note: string, first: Stage, now: int): Tables
    requires leadId in t.leads
  {
    var lead := t.leads[leadId];
    var reassign := lead.assignedBd.Some?;
    var reason := if note != "" then note else BdActionText(reassign) + " by " + actor.name;
    var stageRows := if first.id != 0 && lead.stage != Some(first.id)
                     then [StageHistory(leadId, lead.stage, first.id, actor.id, None, now)] else [];
    t.(leads := t.leads[leadId := lead.(assignedBd := Some(bdId), assignedToBdAt := Some(now), stage := Some(first.id))],
       bdHistory := t.bdHistory + [BdHistory(leadId, lead.assignedBd, bdId, actor.id, now, reason)],
       stageHistory := t.stageHistory + stageRows,
       activities := t.activities + [Activity(t.nextActivityId, leadId, actor.id, AssignmentActivity,
                                              Some(BdActionText(reassign) + " to BD Sales"),
                                              BdDescription(actor.name, reassign, NameOf(t.users, bdId), note),
                                              None, None, None, now)],
       nextActivityId := t.nextActivityId + 1,
       notifications := t.notifications + [Notification(bdId, leadId,
         (if reassign then "Reassigned" else "New") + " lead assigned to you: " + lead.contact.company, Info, false, true, now)])
  }

  /**
   * BD assignment hands the lead to the BD user and puts it in the first
   * stage; it logs one BD-history row from the previous BD (possibly none) to
   * the new one, and a stage-history row only when the stage changed.
   */
  lemma AssignBdEffects(t: Tables, actor: User, leadId: int, bdId: int, note: string, first: Stage, now: int)
    requires leadId in t.leads && first.id > 0
    ensures var t' := AfterAssignBd(t, actor, leadId, bdId, note, first, now);
      var lead := t.leads[leadId];
      t'.leads[leadId].assignedBd == Some(bdId) && t'.leads[leadId].stage == Some(first.id) &&
      t'.leads[leadId].status == lead.status &&
      |t'.bdHistory| == |t.bdHistory| + 1 && t'.bdHistory[..|t.bdHistory|] == t.bdHistory &&
      t'.bdHistory[|t.bdHistory|].fromBd == lead.assignedBd && t'.bdHistory[|t.bdHistory|].toBd == bdId &&
      t'.stageHistory[..|t.stageHistory|] == t.stageHistory &&
      (|t'.stageHistory| == |t.stageHistory| + 1 <==> lead.stage != Some(first.id)) &&
      (|t'.stageHistory| == |t.stageHistory| <==> lead.stage == Some(first.id))
  {
  }

  lemma AssignBdKeepsValid(t: Tables, actor: User, leadId: int, bdId: int, note: string, first: Stage, now: int)
    requires TablesValid(t) && leadId in t.leads
    ensures TablesValid(AfterAssignBd(t, actor, leadId, bdId, note, first, now))
  {
    var t' := AfterAssignBd(t, actor, leadId, bdId, note, first, now);
    assert t'.activities == t.activities + [t'.activities[|t.activities|]];
    assert t'.activities[|t.activities|].id == t.nextActivityId;
  }

  /** The answer of `assign_bd_sales`, refusals in the order the handler checks them. */
  function AssignBdOutcome(t: Tables, actor: User, leadId: int, bdId: int, note: string): Outcome
  {
    if actor.role !in {Admin, Manager, BdSales} then Forbidden
    else if leadId !in t.leads then NotFound
    else if t.leads[leadId].status != Accepted then InvalidState
    else if |PoolIds(t.users, BdSales)| == 0 then InvalidState
    else if bdId !in PoolIds(t.users, BdSales) || !NoteValid(note) then BadRequest
    else if |t.stages| == 0 then InvalidState
    else Ok
  }

  /**
   * `assign_bd_sales` as written. `get_db` hands every caller in a request
   * the same connection, and `peek_next_bd_sales_for_assignment` closes it;
   * on a valid POST the handler's next statement, the lookup of the chosen
   * user, runs on the closed connection and raises before anything is written.
   */
  function AssignBdOutcomeAsWritten(t: Tables, actor: User, leadId: int, bdId: int, note: string): Outcome
  {
    if actor.role !in {Admin, Manager, BdSales} then Forbidden
    else if leadId !in t.leads then NotFound
    else if t.leads[leadId].status != Accepted then InvalidState
    else if |PoolIds(t.users, BdSales)| == 0 then InvalidState
    else if bdId !in PoolIds(t.users, BdSales) || !NoteValid(note) then BadRequest
    else Failed
  }

  /**
   * As written, no BD assignment is ever committed: every request the
   * corrected handler commits fails instead, a missing pipeline stage is
   * never reported, and the refusals before the peek are the same.
   */
  lemma AssignBdNeverCommitsAsWritten(t: Tables, actor: User, leadId: int, bdId: int, note: string)
    ensures AssignBdOutcomeAsWritten(t, actor, leadId, bdId, note) != Ok
    ensures AssignBdOutcome(t, actor, leadId, bdId, note) == Ok ==> AssignBdOutcomeAsWritten(t, actor, leadId, bdId, note) == Failed
    ensures AssignBdOutcomeAsWritten(t, actor, leadId, bdId, note) == Failed <==>
      actor.role in {Admin, Manager, BdSales} && leadId in t.leads && t.leads[leadId].status == Accepted &&
      bdId in PoolIds(t.users, BdSales) && NoteValid(note)
    ensures AssignBdOutcomeAsWritten(t, actor, leadId, bdId, note) != Failed ==>
      AssignBdOutcomeAsWritten(t, actor, leadId, bdId, note) == AssignBdOutcome(t, actor, leadId, bdId, note)
  {
  }

  /**
   * `assign_bd_sales`. Refused unless the actor is an admin, manager or BD
   * user, the lead is 'Accepted', a BD user exists, the chosen id is one of
   * them (the form's choices), the note fits in 500 characters and a
   * pipeline stage exists. The suggestion is
   * the BD rotation's peek; the pointer moves to the chosen BD only when it
   * differs from the lead's previous BD.
   */
  method AssignBd(db: Db, actor: User, leadId: int, bdId: int, note: string, now: int)
    returns (r: Outcome, suggested: Option<int>)
    requires db.Valid()
    modifies db, db.settings
    ensures db.Valid()
    ensures db.settings.lastManagerId == old(db.settings.lastManagerId)
    ensures r != Ok ==> db.tables == old(db.tables) && db.settings.lastBdId == old(db.settings.lastBdId)
    ensures r == AssignBdOutcome(old(db.tables), actor, leadId, bdId, note)
    ensures r == Forbidden <==> actor.role !in {Admin, Manager, BdSales}
    ensures r == Ok <==> (actor.role in {Admin, Manager, BdSales} && leadId in old(db.tables.leads) &&
      old(db.tables.leads[leadId].status) == Accepted && bdId in PoolIds(old(db.tables.users), BdSales) &&
      NoteValid(note) && |old(db.tables.stages)| > 0)
    ensures r == Ok ==> suggested == NextInRotation(PoolIds(old(db.tables.users), BdSales), old(db.settings.lastBdId))
    ensures r == Ok ==> db.tables == AfterAssignBd(old(db.tables), actor, leadId, bdId, note, FirstStage(old(db.tables.stages)).value, now)
    ensures r == Ok ==> db.settings.lastBdId == (if old(db.tables.leads[leadId].assignedBd) != Some(bdId) then Some(bdId) else old(db.settings.lastBdId))
  {
    suggested := None;
    if actor.role !in {Admin, Manager, BdSales} {
      return Forbidden, suggested;
    }
    var t := db.tables;
    if leadId !in t.leads {
      return NotFound, suggested;
    }
    var lead := t.leads[leadId];
    if lead.status != Accepted {
      return InvalidState, suggested;
    }
    var bdIds := PoolIds(t.users, BdSales);
    if |bdIds| == 0 {
      return InvalidState, suggested;
    }
    suggested := db.settings.PeekNextBd(t.users);
    if bdId !in bdIds || !NoteValid(note) {
      return BadRequest, suggested;
    }
    var first := FirstStage(t.stages);
    if first.None? {
      return InvalidState, suggested;
    }
    var stage := first.value;
    assert stage in t.stages;
    AssignBdKeepsValid(t, actor, leadId, bdId, note, stage, now);
    db.tables := AfterAssignBd(t, actor, leadId, bdId, note, stage, now);
    if lead.assignedBd != Some(bdId) {
      db.settings.CommitBd(bdId);
    }
    r := Ok;
  }

  // ---------------------------------------------------------------- stage move

  function FindStage(stages: seq<Stage>, id: int): (r: Option<Stage>)
    ensures r.Some? ==> r.value in stages && r.value.id == id
    ensures r.None? ==> forall s :: s in stages ==> s.id != id
  {
    if |stages| == 0 then None
    else if stages[0].id == id then Some(stages[0])
    else FindStage(stages[1..], id)
  }

  /** `old_stage_name or "None"` in the history note. */
  function OldStageLabel(stages: seq<Stage>, old_: Option<int>): string
  {
    if old_.Some? && old_.value != 0 && FindStage(stages, old_.value).Some? && FindStage(stages, old_.value).value.name != ""
    then FindStage(stages, old_.value).value.name
    else "None"
  }

  /** Whether the BD user (someone other than the mover) is told of the move. */
  predicate NotifiesBd(lead: Lead, actor: User)
  {
    lead.assignedBd.Some? && lead.assignedBd.value != 0 && lead.assignedBd.value != actor.id
  }

  function AfterMoveStage(t: Tables, actor: User, leadId: int, stage: Stage, now: int): Tables
    requires leadId in t.leads
  {
    var lead := t.leads[leadId];
    var shown := if lead.contact.company != "" then lead.contact.company else lead.contact.fullName;
    t.(leads := t.leads[leadId := lead.(stage := Some(stage.id))],
       stageHistory := t.stageHistory + [StageHistory(leadId, lead.stage, stage.id, actor.id,
         Some("Stage changed from " + OldStageLabel(t.stages, lead.stage) + " to " + stage.name), now)],
       notifications := t.notifications +
         (if NotifiesBd(lead, actor)
          then [Notification(lead.assignedBd.value, leadId, actor.name + " moved lead \"" + shown + "\" to " + stage.name, Info, false, false, now)]
          else []))
  }

  /**
   * A move always appends exactly one stage-history row from the old stage to
   * the new one, and notifies the assigned BD user exactly when someone else
   * made the move.
   */
  lemma MoveStageEffects(t: Tables, actor: User, leadId: int, stage: Stage, now: int)
    requires leadId in t.leads
    ensures var t' := AfterMoveStage(t, actor, leadId, stage, now);
      var lead := t.leads[leadId];
      t'.leads[leadId].stage == Some(stage.id) &&
      t'.stageHistory == t.stageHistory + [t'.stageHistory[|t.stageHistory|]] &&
      t'.stageHistory[|t.stageHistory|].fromStage == lead.stage && t'.stageHistory[|t.stageHistory|].toStage == stage.id &&
      t'.notifications[..|t.notifications|] == t.notifications &&
      (|t'.notifications| > |t.notifications| <==> NotifiesBd(lead, actor)) &&
      (NotifiesBd(lead, actor) ==> (|t'.notifications| == |t.notifications| + 1 &&
         t'.notifications[|t.notifications|].userId == lead.assignedBd.value &&
         !t'.notifications[|t.notifications|].soundEnabled))
  {
  }

  /**
   * `update_lead_stage`. Refused for other roles, for a missing or zero stage
   * id (400), an unknown stage or lead (404), and a BD user moving a lead not
   * assigned to them (403). There is no check of the lead's status.
   */
  method MoveStage(db: Db, actor: User, leadId: int, stageId: Option<int>, now: int) returns (r: Outcome)
    requires db.Valid()
    modifies db
    ensures db.Valid()
    ensures r != Ok ==> db.tables == old(db.tables)
    ensures r == BadRequest <==> actor.role in {Admin, Manager, BdSales} && (stageId.None? || stageId.value == 0)
    ensures r == Ok <==> (actor.role in {Admin, Manager, BdSales} && stageId.Some? && stageId.value != 0 &&
      FindStage(old(db.tables.stages), stageId.value).Some? && leadId in old(db.tables.leads) &&
      (actor.role == BdSales ==> old(db.tables.leads[leadId].assignedBd) == Some(actor.id)))
    ensures r == Ok ==> db.tables == AfterMoveStage(old(db.tables), actor, leadId, FindStage(old(db.tables.stages), stageId.value).value, now)
  {
    if actor.role !in {Admin, Manager, BdSales} {
      return Forbidden;
    }
    if stageId.None? || stageId.value == 0 {
      return BadRequest;
    }
    var t := db.tables;
    var stage := FindStage(t.stages, stageId.value);
    if stage.None? {
      return NotFound;
    }
    if leadId !in t.leads {
      return NotFound;
    }
    var lead := t.leads[leadId];
    if actor.role == BdSales && lead.assignedBd != Some(actor.id) {
      return Forbidden;
    }
    var s := stage.value;
    var note := "Stage changed from " + OldStageLabel(t.stages, lead.stage) + " to " + s.name;
    db.tables := t.(leads := t.leads[leadId := lead.(stage := Some(s.id))],
                    stageHistory := t.stageHistory + [StageHistory(leadId, lead.stage, s.id, actor.id, Some(note), now)]);
    if NotifiesBd(lead, actor) {
      var shown := if lead.contact.company != "" then lead.contact.company else lead.contact.fullName;
      var message := actor.name + " moved lead \"" + shown + "\" to " + s.name;
      db.tables := db.tables.(notifications := t.notifications + [Notification(lead.assignedBd.value, leadId, message, Info, false, false, now)]);
    }
    r := Ok;
  }

  // ---------------------------------------------------------------- task completion

  /** The index of the activity with this id on this lead, if any. */
  function FindActivity(acts: seq<Activity>, id: int, leadId: int): (k: Option<nat>)
    ensures k.Some? ==> k.value < |acts| && acts[k.value].id == id && acts[k.value].leadId == leadId
    ensures k.None? ==> forall i :: 0 <= i < |acts| ==> !(acts[i].id == id && acts[i].leadId == leadId)
  {
    if |acts| == 0 then None
    else if acts[|acts| - 1].id == id && acts[|acts| - 1].leadId == leadId then Some(|acts| - 1)
    else FindActivity(acts[..|acts| - 1], id, leadId)
  }

  /** A completed activity is reopened; an open one is completed at `now`. */
  function Toggled(a: Activity, now: int): Activity
  {
    a.(completedAt := if a.completedAt.Some? then None else Some(now))
  }

  /** Toggling flips completion, and toggling twice reopens what was open. */
  lemma ToggleFlips(a: Activity, t1: int, t2: int)
    ensures Toggled(a, t1).completedAt.Some? <==> a.completedAt.None?
    ensures a.completedAt.None? ==> Toggled(Toggled(a, t1), t2) == a
    ensures Toggled(a, t1).(completedAt := a.completedAt) == a
  {
  }

  /**
   * `toggle_task_complete`. A missing lead is 404 before any role check; a BD
   * user may only toggle activities of leads assigned to them; marketers are
   * refused; an activity that is not on this lead is 404.
   */
  method ToggleTask(db: Db, actor: User, leadId: int, activityId: int, now: int) returns (r: Outcome)
    requires db.Valid()
    modifies db
    ensures db.Valid()
    ensures r != Ok ==> db.tables == old(db.tables)
    ensures leadId !in old(db.tables.leads) ==> r == NotFound
    ensures r == Ok <==> (leadId in old(db.tables.leads) && actor.role in {Admin, Manager, BdSales} &&
      (actor.role == BdSales ==> old(db.tables.leads[leadId].assignedBd) == Some(actor.id)) &&
      FindActivity(old(db.tables.activities), activityId, leadId).Some?)
    ensures r == Ok ==> var k := FindActivity(old(db.tables.activities), activityId, leadId).value;
      db.tables == old(db.tables).(activities := old(db.tables.activities)[k := Toggled(old(db.tables.activities[k]), now)])
  {
    var t := db.tables;
    if leadId !in t.leads {
      return NotFound;
    }
    var lead := t.leads[leadId];
    if actor.role == BdSales && lead.assignedBd != Some(actor.id) {
      return Forbidden;
    }
    if actor.role !in {Admin, Manager, BdSales} {
      return Forbidden;
    }
    var k := FindActivity(t.activities, activityId, leadId);
    if k.None? {
      return NotFound;
    }
    var i := k.value;
    db.tables := t.(activities := t.activities[i := Toggled(t.activities[i], now)]);
    r := Ok;
  }
}
