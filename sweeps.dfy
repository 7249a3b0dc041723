/**
 * The two scheduled jobs: the sweep that hands overdue pending assignments
 * to another manager, and the sweep that turns due activity reminders into
 * notifications at most once per activity, actor and day. Each is one call
 * taking the current time `now`; the scheduler that fires it is outside the
 * model.
 */
module Sweeps {
  import opened Wrappers
  import opened Text
  import opened Schema
  import opened RoundRobin
  import opened Store
  import opened Sorting
  import opened Lifecycle
  import opened Timeline
  import opened Rows

  // ---------------------------------------------------------------------------
  // Overdue-assignment sweep
  // ---------------------------------------------------------------------------

  const SweepBatch := 10
  const AutoReassignReason := "Automatic reassignment due to missed deadline"
  /** The author id the sweep writes its system note under. */
  const SystemAuthor := 1

  /** A row of the sweep's join: the assignment with its lead's company and its manager's name. */
  datatype OverdueRow = OverdueRow(assignment: Assignment, company: string, managerName: string)

  /** The join's WHERE clause: a pending row past its deadline on a lead still waiting for review. */
  predicate Overdue(t: Tables, a: Assignment, now: int)
  {
    a.status == AssignmentPending && a.deadlineAt < now &&
    a.leadId in t.leads && (t.leads[a.leadId].status == Pending || t.leads[a.leadId].status == Resubmitted) &&
    FindUser(t.users, a.managerId).Some?
  }

  function RowOf(t: Tables, a: Assignment, now: int): OverdueRow
    requires Overdue(t, a, now)
  {
    OverdueRow(a, t.leads[a.leadId].contact.company, FindUser(t.users, a.managerId).value.name)
  }

  /** The joined rows before ordering, in table order. */
  function OverdueRows(t: Tables, rows: seq<Assignment>, now: int): (r: seq<OverdueRow>)
    ensures forall x :: x in r <==> x.assignment in rows && Overdue(t, x.assignment, now) && x == RowOf(t, x.assignment, now)
  {
    if |rows| == 0 then []
    else (if Overdue(t, rows[0], now) then [RowOf(t, rows[0], now)] else []) + OverdueRows(t, rows[1..], now)
  }

  function DeadlineOf(r: OverdueRow): int
  {
    r.assignment.deadlineAt
  }

  /** `ORDER BY la.deadline_at ASC LIMIT 10`. */
  function SelectOverdue(t: Tables, now: int): seq<OverdueRow>
  {
    Take(SortBy(OverdueRows(t, t.assignments, now), DeadlineOf), SweepBatch)
  }

  /**
   * The batch holds only overdue rows of the table, earliest deadline first,
   * as many as exist up to ten, and no overdue row left out is due before
   * the last one taken.
   */
  lemma SelectOverdueSpec(t: Tables, now: int)
    ensures var all := OverdueRows(t, t.assignments, now);
      var b := SelectOverdue(t, now);
      (forall x :: x in b ==> x.assignment in t.assignments && Overdue(t, x.assignment, now)) &&
      SortedBy(b, DeadlineOf) &&
      |b| == (if |all| < SweepBatch then |all| else SweepBatch) &&
      (forall x :: x in all && x !in b && |b| > 0 ==> b[|b| - 1].assignment.deadlineAt <= x.assignment.deadlineAt)
  {
    var all := OverdueRows(t, t.assignments, now);
    var b := SelectOverdue(t, now);
    BatchSpec(all, DeadlineOf, SweepBatch);
  }

  /** The other managers, ascending: what the per-lead query is meant to return. */
  function OtherManagers(users: seq<User>, incumbent: int): (r: seq<int>)
    ensures forall m :: m in r <==> m in PoolIds(users, Manager) && m != incumbent
  {
    Without(PoolIds(users, Manager), incumbent)
  }

  /** The new manager: the rotation pick, or the lowest other manager when the pick is the incumbent. */
  function Replacement(pick: int, incumbent: int, others: seq<int>): int
    requires |others| > 0
  {
    if pick == incumbent then others[0] else pick
  }

  /** The replacement is a manager and never the incumbent; the fallback is the lowest other id. */
  lemma ReplacementIsOtherManager(users: seq<User>, pick: int, incumbent: int)
    requires UsersOrdered(users)
    requires pick in PoolIds(users, Manager)
    requires |OtherManagers(users, incumbent)| > 0
    ensures var others := OtherManagers(users, incumbent);
      var m := Replacement(pick, incumbent, others);
      m in PoolIds(users, Manager) && m != incumbent &&
      (pick == incumbent ==> forall o :: o in others ==> m <= o)
  {
    var others := OtherManagers(users, incumbent);
    assert others[0] in others;
    PoolIdsOrdered(users, Manager);
    WithoutIncreasing(PoolIds(users, Manager), incumbent);
  }

  /** One lead handed over: a new pending row, the history row, the lead's manager, a note and two notifications. */
  function Reassigned(t: Tables, row: OverdueRow, newManager: int, now: int): (r: Tables)
    ensures TablesValid(t) ==> TablesValid(r)
    ensures r.users == t.users && r.leads.Keys == t.leads.Keys
  {
    var a := row.assignment;
    t.(assignments := t.assignments + [Assignment(a.leadId, newManager, now, now + ReassignDeadline, None, AssignmentPending, false)],
       reassignments := t.reassignments + [Reassignment(a.leadId, a.managerId, newManager, AutoReassignReason)],
       leads := if a.leadId in t.leads then t.leads[a.leadId := t.leads[a.leadId].(currentManager := Some(newManager))] else t.leads,
       notes := t.notes + [Note(a.leadId, SystemAuthor, SystemNote,
         "Lead auto-reassigned from " + row.managerName + " to " + NameOf(t.users, newManager) + " due to missed deadline", now)],
       notifications := t.notifications + [
         Notification(newManager, a.leadId, "Lead for " + row.company + " has been reassigned to you (previous manager missed deadline)",
                      AssignmentKind, false, true, now),
         Notification(a.managerId, a.leadId, "Lead for " + row.company + " was reassigned (deadline missed)",
                      Warning, false, true, now)])
  }

  /** The database and the manager pointer as the sweep carries them from lead to lead. */
  datatype SweepState = SweepState(tables: Tables, lastManager: Option<int>)

  function SweepStep(s: SweepState, row: OverdueRow, now: int): (r: SweepState)
    ensures TablesValid(s.tables) ==> TablesValid(r.tables)
    ensures r.tables.users == s.tables.users && r.tables.leads.Keys == s.tables.leads.Keys
  {
    var pool := PoolIds(s.tables.users, Manager);
    var others := OtherManagers(s.tables.users, row.assignment.managerId);
    if |others| == 0 then s
    else
      assert others[0] in pool;
      var pick := NextInRotation(pool, s.lastManager).value;
      SweepState(Reassigned(s.tables, row, Replacement(pick, row.assignment.managerId, others), now), Some(pick))
  }

  /** A step with another manager available stores the rotation pick and hands the lead over. */
  lemma StepTaken(s: SweepState, row: OverdueRow, now: int)
    requires |OtherManagers(s.tables.users, row.assignment.managerId)| > 0
    ensures var others := OtherManagers(s.tables.users, row.assignment.managerId);
      var next := NextInRotation(PoolIds(s.tables.users, Manager), s.lastManager);
      next.Some? &&
      SweepStep(s, row, now) == SweepState(Reassigned(s.tables, row, Replacement(next.value, row.assignment.managerId, others), now), next)
  {
    var others := OtherManagers(s.tables.users, row.assignment.managerId);
    assert others[0] in PoolIds(s.tables.users, Manager);
  }

  lemma StepSkipped(s: SweepState, row: OverdueRow, now: int)
    requires |OtherManagers(s.tables.users, row.assignment.managerId)| == 0
    ensures SweepStep(s, row, now) == s
  {
  }

  /** The sweep over the first `|rows|` rows of a batch. */
  function SweepFold(s: SweepState, rows: seq<OverdueRow>, now: int): (r: SweepState)
    ensures TablesValid(s.tables) ==> TablesValid(r.tables)
    ensures r.tables.users == s.tables.users && r.tables.leads.Keys == s.tables.leads.Keys
    decreases |rows|
  {
    if |rows| == 0 then s
    else SweepStep(SweepFold(s, rows[..|rows| - 1], now), rows[|rows| - 1], now)
  }

  lemma FoldStep(s: SweepState, rows: seq<OverdueRow>, i: nat, now: int)
    requires i < |rows|
    ensures SweepFold(s, rows[..i + 1], now) == SweepStep(SweepFold(s, rows[..i], now), rows[i], now)
  {
    assert rows[..i + 1][..i] == rows[..i];
  }

  /**
   * One lead of the sweep: skipped when no other manager exists; otherwise
   * exactly one new pending row for a manager other than the incumbent, the
   * lead moved to that manager, one 'assignment' notification to them and one
   * 'warning' to the incumbent, and the pointer advanced to the rotation pick.
   */
  lemma SweepStepEffects(s: SweepState, row: OverdueRow, now: int)
    requires TablesValid(s.tables)
    requires row.assignment.leadId in s.tables.leads
    ensures var t := s.tables;
      var a := row.assignment;
      var r := SweepStep(s, row, now);
      (|OtherManagers(t.users, a.managerId)| == 0 ==> r == s) &&
      (|OtherManagers(t.users, a.managerId)| > 0 ==>
        exists m ::
          m in PoolIds(t.users, Manager) && m != a.managerId &&
          r.tables.assignments == t.assignments + [Assignment(a.leadId, m, now, now + ReassignDeadline, None, AssignmentPending, false)] &&
          r.tables.leads[a.leadId] == t.leads[a.leadId].(currentManager := Some(m)) &&
          r.tables.reassignments == t.reassignments + [Reassignment(a.leadId, a.managerId, m, AutoReassignReason)] &&
          |r.tables.notifications| == |t.notifications| + 2 &&
          r.tables.notifications[..|t.notifications|] == t.notifications &&
          r.tables.notifications[|t.notifications|].userId == m &&
          r.tables.notifications[|t.notifications|].kind == AssignmentKind &&
          r.tables.notifications[|t.notifications| + 1].userId == a.managerId &&
          r.tables.notifications[|t.notifications| + 1].kind == Warning &&
          r.lastManager == NextInRotation(PoolIds(t.users, Manager), s.lastManager))
  {
    var t := s.tables;
    var a := row.assignment;
    var pool := PoolIds(t.users, Manager);
    var others := OtherManagers(t.users, a.managerId);
    if |others| > 0 {
      assert others[0] in pool;
      var pick := NextInRotation(pool, s.lastManager).value;
      ReplacementIsOtherManager(t.users, pick, a.managerId);
      var m := Replacement(pick, a.managerId, others);
      var r := SweepStep(s, row, now);
      assert r.tables == Reassigned(t, row, m, now);
    }
  }

  /** The superseded row is never closed: an overdue row stays overdue after a step. */
  lemma StepKeepsOverdue(s: SweepState, row: OverdueRow, now: int, a: Assignment)
    requires a in s.tables.assignments && Overdue(s.tables, a, now)
    ensures a in SweepStep(s, row, now).tables.assignments && Overdue(SweepStep(s, row, now).tables, a, now)
  {
    var t := s.tables;
    var r := SweepStep(s, row, now).tables;
    if |OtherManagers(t.users, row.assignment.managerId)| > 0 {
      StepTaken(s, row, now);
      assert r.assignments[..|t.assignments|] == t.assignments;
      assert a.leadId in r.leads && r.leads[a.leadId].status == t.leads[a.leadId].status;
    }
  }

  lemma {:induction false} FoldKeepsOverdue(s: SweepState, rows: seq<OverdueRow>, now: int, a: Assignment)
    requires a in s.tables.assignments && Overdue(s.tables, a, now)
    ensures a in SweepFold(s, rows, now).tables.assignments && Overdue(SweepFold(s, rows, now).tables, a, now)
    decreases |rows|
  {
    if |rows| > 0 {
      FoldKeepsOverdue(s, rows[..|rows| - 1], now, a);
      StepKeepsOverdue(SweepFold(s, rows[..|rows| - 1], now), rows[|rows| - 1], now, a);
    }
  }

  /**
   * The sweep is not idempotent: a rerun at the same `now` finds a non-empty
   * batch again whenever the first run had one, because every row it handled
   * is still pending and past its deadline.
   */
  lemma SweepNotIdempotent(s: SweepState, now: int)
    requires |SelectOverdue(s.tables, now)| > 0
    ensures var after := SweepFold(s, SelectOverdue(s.tables, now), now).tables;
      (forall x :: x in SelectOverdue(s.tables, now) ==> Overdue(after, x.assignment, now)) &&
      |SelectOverdue(after, now)| > 0
  {
    var b := SelectOverdue(s.tables, now);
    var after := SweepFold(s, b, now).tables;
    SelectOverdueSpec(s.tables, now);
    forall x | x in b
      ensures Overdue(after, x.assignment, now) && x.assignment in after.assignments
    {
      FoldKeepsOverdue(s, b, now, x.assignment);
    }
    var x := b[0];
    assert x in b;
    assert RowOf(after, x.assignment, now) in OverdueRows(after, after.assignments, now);
    SelectOverdueSpec(after, now);
  }

  /** The loop of the overdue sweep over a given batch, carrying the manager pointer from lead to lead. */
  method SweepRows(db: Db, batch: seq<OverdueRow>, now: int)
    requires db.Valid()
    modifies db, db.settings
    ensures db.Valid()
    ensures SweepState(db.tables, db.settings.lastManagerId) ==
            SweepFold(SweepState(old(db.tables), old(db.settings.lastManagerId)), batch, now)
    ensures db.settings.lastBdId == old(db.settings.lastBdId)
  {
    var t := db.tables;
    ghost var s0 := SweepState(t, db.settings.lastManagerId);
    for i := 0 to |batch|
      invariant db.settings.Valid() && db.settings.rowExists
      invariant SweepState(t, db.settings.lastManagerId) == SweepFold(s0, batch[..i], now)
      invariant db.settings.lastBdId == old(db.settings.lastBdId)
    {
      FoldStep(s0, batch, i, now);
      var row := batch[i];
      ghost var s := SweepState(t, db.settings.lastManagerId);
      var others := OtherManagers(t.users, row.assignment.managerId);
      if |others| > 0 {
        StepTaken(s, row, now);
        var next := db.settings.TakeNextManager(t.users);
        t := Reassigned(t, row, Replacement(next.value, row.assignment.managerId, others), now);
      } else {
        StepSkipped(s, row, now);
      }
    }
    assert batch[..|batch|] == batch;
    db.tables := t;
  }

  /**
   * The overdue sweep, with the other-managers query bound as intended and
   * the manager pointer advanced inside the same transaction.
   */
  method ReassignOverdueLeads(db: Db, now: int) returns (batch: seq<OverdueRow>)
    requires db.Valid()
    modifies db, db.settings
    ensures db.Valid()
    ensures batch == SelectOverdue(old(db.tables), now)
    ensures SweepState(db.tables, db.settings.lastManagerId) ==
            SweepFold(SweepState(old(db.tables), old(db.settings.lastManagerId)), batch, now)
    ensures db.settings.lastBdId == old(db.settings.lastBdId)
  {
    batch := SelectOverdue(db.tables, now);
    SweepRows(db, batch, now);
  }

  // The per-lead other-managers query as written.

  /** A value bound to a query placeholder. */
  datatype SqlValue = SqlInt(i: int) | SqlText(s: string)

  /** Ids of users with the given role name and an id other than `x`, in id order. */
  function IdsWhere(users: seq<User>, roleName: string, x: int): seq<int>
  {
    if |users| == 0 then []
    else (if RoleName(users[0].role) == roleName && users[0].id != x then [users[0].id] else []) + IdsWhere(users[1..], roleName, x)
  }

  /**
   * `SELECT id FROM users WHERE role = %s AND id != %s ORDER BY id`: two
   * placeholders; any other number of parameters, or values of the wrong
   * type, make the driver raise (None).
   */
  function OtherManagersQuery(users: seq<User>, params: seq<SqlValue>): (r: Option<seq<int>>)
    ensures r.Some? <==> |params| == 2 && params[0].SqlText? && params[1].SqlInt?
  {
    if |params| == 2 && params[0].SqlText? && params[1].SqlInt? then Some(IdsWhere(users, params[0].s, params[1].i))
    else None
  }

  /** The sweep as written: the query gets one parameter, raises on the first lead, and the job rolls back. */
  function ReassignOverdueAsWritten(s: SweepState, now: int): SweepState
  {
    var b := SelectOverdue(s.tables, now);
    if |b| == 0 then s
    else match OtherManagersQuery(s.tables.users, [SqlInt(b[0].assignment.managerId)])
      case None => s
      case Some(_) => SweepFold(s, b, now)
  }

  /** As written, the sweep never reassigns anything, however overdue the batch is. */
  lemma OverdueSweepAsWrittenDoesNothing(s: SweepState, now: int)
    ensures forall id :: OtherManagersQuery(s.tables.users, [SqlInt(id)]).None?
    ensures ReassignOverdueAsWritten(s, now) == s
  {
  }

  lemma {:induction false} IdsWhereManagers(users: seq<User>, x: int)
    ensures IdsWhere(users, "manager", x) == Without(PoolIds(users, Manager), x)
    decreases |users|
  {
    if |users| > 0 {
      IdsWhereManagers(users[1..], x);
      var head := if users[0].role == Manager then [users[0].id] else [];
      assert Without(head + PoolIds(users[1..], Manager), x) == Without(head, x) + Without(PoolIds(users[1..], Manager), x) by {
        WithoutAppend(head, PoolIds(users[1..], Manager), x);
      }
    }
  }

  lemma {:induction false} WithoutAppend(a: seq<int>, b: seq<int>, x: int)
    ensures Without(a + b, x) == Without(a, x) + Without(b, x)
    decreases |a|
  {
    if |a| == 0 {
      assert a + b == b;
    } else {
      assert (a + b)[0] == a[0] && (a + b)[1..] == a[1..] + b;
      WithoutAppend(a[1..], b, x);
      var h := if a[0] == x then [] else [a[0]];
      assert Without(a + b, x) == h + Without(a[1..] + b, x);
      assert Without(a, x) == h + Without(a[1..], x);
    }
  }

  /** Bound with the role and the incumbent, the query returns exactly the other managers the corrected sweep uses. */
  lemma OtherManagersQueryCorrected(users: seq<User>, incumbent: int)
    ensures OtherManagersQuery(users, [SqlText(RoleName(Manager)), SqlInt(incumbent)]) == Some(OtherManagers(users, incumbent))
  {
    IdsWhereManagers(users, incumbent);
  }

  // ---------------------------------------------------------------------------
  // Activity-reminder sweep
  // ---------------------------------------------------------------------------

  const ReminderBatch := 20

  /** A row of the reminder join: the activity with its lead's company. */
  datatype ReminderRow = ReminderRow(activity: Activity, company: string)

  /** The join's WHERE clause: a reminder time reached, the activity still open, lead and actor existing. */
  predicate ReminderDue(t: Tables, a: Activity, now: int)
  {
    a.reminderAt.Some? && a.reminderAt.value <= now && a.completedAt.None? &&
    a.leadId in t.leads && FindUser(t.users, a.actorId).Some?
  }

  function DueRows(t: Tables, acts: seq<Activity>, now: int): (r: seq<ReminderRow>)
    ensures forall x :: x in r <==> x.activity in acts && ReminderDue(t, x.activity, now) &&
                                    x.company == t.leads[x.activity.leadId].contact.company
  {
    if |acts| == 0 then []
    else
      var head := if ReminderDue(t, acts[0], now) then [ReminderRow(acts[0], t.leads[acts[0].leadId].contact.company)] else [];
      head + DueRows(t, acts[1..], now)
  }

  function ReminderAtOf(r: ReminderRow): int
  {
    r.activity.reminderAt.GetOr(0)
  }

  /** `ORDER BY la.reminder_at ASC LIMIT 20`. */
  function SelectDue(t: Tables, now: int): seq<ReminderRow>
  {
    Take(SortBy(DueRows(t, t.activities, now), ReminderAtOf), ReminderBatch)
  }

  /**
   * The batch holds only due, open activities, earliest reminder first, as
   * many as exist up to twenty, and no due row left out has an earlier
   * reminder than the last one taken.
   */
  lemma SelectDueSpec(t: Tables, now: int)
    ensures var all := DueRows(t, t.activities, now);
      var b := SelectDue(t, now);
      (forall x :: x in b ==> x.activity in t.activities && ReminderDue(t, x.activity, now)) &&
      SortedBy(b, ReminderAtOf) &&
      |b| == (if |all| < ReminderBatch then |all| else ReminderBatch) &&
      (forall x :: x in all && x !in b && |b| > 0 ==> ReminderAtOf(b[|b| - 1]) <= ReminderAtOf(x))
  {
    var all := DueRows(t, t.activities, now);
    var b := SelectDue(t, now);
    BatchSpec(all, ReminderAtOf, ReminderBatch);
  }

  /**
   * The year of a day within a 400-year era of March-based years, and the
   * day within that year: the era splits into centuries (the fourth may hold
   * one day more), 4-year cycles, and years (the fourth may hold one day more).
   */
  function YearOfEra(doe: int): (r: (int, int))
    requires 0 <= doe < 146097
    ensures 0 <= r.0 < 400 && 0 <= r.1 < 366
    ensures 365 * r.0 + r.0 / 4 - r.0 / 100 + r.1 == doe
  {
    var cent := if doe / 36524 < 3 then doe / 36524 else 3;
    var doc := doe - 36524 * cent;
    var quad := doc / 1461;
    var doq := doc - 1461 * quad;
    var yq := if doq / 365 < 3 then doq / 365 else 3;
    var yoe := 100 * cent + 4 * quad + yq;
    assert yoe / 4 == 25 * cent + quad && yoe / 100 == cent;
    (yoe, doq - 365 * yq)
  }

  /** The days before a month of a March-based year (March is month 0). */
  function DaysBeforeMonth(mp: int): int
  {
    (153 * mp + 2) / 5
  }

  /** The month (1-12) and day of month of a day of a March-based year. */
  function MonthDay(doy: int): (r: (int, int))
    requires 0 <= doy < 366
    ensures 1 <= r.0 <= 12 && 1 <= r.1 <= 31
    ensures DaysBeforeMonth(if r.0 > 2 then r.0 - 3 else r.0 + 9) + r.1 - 1 == doy
  {
    var mp := (5 * doy + 2) / 153;
    (if mp < 10 then mp + 3 else mp - 9, doy - DaysBeforeMonth(mp) + 1)
  }

  /** The day count from 1970-01-01 of a proleptic Gregorian date. */
  function DaysFromCivil(y: int, m: int, d: int): int
  {
    var y' := if m <= 2 then y - 1 else y;
    var era := y' / 400;
    var yoe := y' - era * 400;
    era * 146097 + yoe * 365 + yoe / 4 - yoe / 100 + DaysBeforeMonth(if m > 2 then m - 3 else m + 9) + d - 1 - 719468
  }

  /**
   * The proleptic Gregorian (year, month, day) of a day count from
   * 1970-01-01. Every day has its own date: the date counts back to the day.
   */
  function CivilFromDays(days: int): (ymd: (int, int, int))
    ensures 1 <= ymd.1 <= 12 && 1 <= ymd.2 <= 31
    ensures DaysFromCivil(ymd.0, ymd.1, ymd.2) == days
  {
    var z := days + 719468;
    var era := z / 146097;
    var yd := YearOfEra(z - era * 146097);
    var md := MonthDay(yd.1);
    var y := yd.0 + era * 400 + (if md.0 <= 2 then 1 else 0);
    var y' := if md.0 <= 2 then y - 1 else y;
    assert y' == yd.0 + era * 400;
    assert y' / 400 == era && y' - era * 400 == yd.0;
    (y, md.0, md.1)
  }

  /** `n` in decimal, padded on the left with zeros to `width` characters. */
  function ZeroPad(n: nat, width: nat): (r: string)
    ensures IsDigits(r) && |r| >= width
    ensures |NatToString(n)| >= width ==> r == NatToString(n)
    ensures r[|r| - |NatToString(n)|..] == NatToString(n)
    decreases width
  {
    var s := NatToString(n);
    if |s| >= width then s
    else
      var r := "0" + ZeroPad(n, width - 1);
      assert r[1..] == ZeroPad(n, width - 1);
      r
  }

  /**
   * The first ten characters of `str(datetime)`: the date `YYYY-MM-DD` of a
   * time, counted in seconds from 1970-01-01 00:00.
   */
  function IsoDate(t: int): string
  {
    var (y, m, d) := CivilFromDays(Day(t));
    ZeroPad(if y < 0 then 0 else y, 4) + "-" + ZeroPad(m, 2) + "-" + ZeroPad(d, 2)
  }

  /** Day 0 is 1 January 1970. */
  lemma CivilOfEpoch()
    ensures CivilFromDays(0) == (1970, 1, 1)
  {
    assert YearOfEra(719468 - 4 * 146097) == (369, 306);
    assert MonthDay(306) == (1, 1);
  }

  lemma PaddedEpochParts()
    ensures ZeroPad(1970, 4) == "1970" && ZeroPad(1, 2) == "01"
  {
    assert NatToString(19) == "19";
    assert NatToString(197) == "197";
    assert NatToString(1970) == "1970";
  }

  /** The epoch prints as 1970-01-01. */
  lemma IsoDateOfEpoch()
    ensures IsoDate(0) == "1970" + "-" + "01" + "-" + "01"
  {
    CivilOfEpoch();
    PaddedEpochParts();
  }

  /** The suffix the dedup query looks for. */
  function ActivityTag(id: int): string
  {
    "[Activity #" + IntToString(id) + "]"
  }

  /**
   * The reminder text of the corrected sweep. A due date, which PostgreSQL
   * returns as a `datetime` (always true), is shown as its `YYYY-MM-DD` date.
   */
  function ReminderMessage(row: ReminderRow): (m: string)
    ensures EndsWith(m, ActivityTag(row.activity.id))
    ensures StartsWith(m, "Reminder: ")
  {
    var a := row.activity;
    var due := if a.dueAt.Some? then " (Due: " + IsoDate(a.dueAt.value) + ")" else "";
    var m := "Reminder: " + ActivityTitle(a) + " for " + row.company + due + " " + ActivityTag(a.id);
    assert m[|m| - |ActivityTag(a.id)|..] == ActivityTag(a.id);
    assert m[..|"Reminder: "|] == "Reminder: ";
    m
  }

  /**
   * The reminder job as written. Under PostgreSQL `due_at` is a `datetime`,
   * so `activity["due_at"][:10]` raises `TypeError` while the message of the
   * first batch row with a due date is built; the `except` then rolls back
   * every reminder the run had inserted.
   */
  function ReminderSweepAsWritten(t: Tables, now: int): Tables
  {
    var b := SelectDue(t, now);
    if exists x | x in b :: x.activity.dueAt.Some? then t else ReminderFold(t, b, now)
  }

  /**
   * As written, a batch holding an activity with a due date writes nothing:
   * that activity is not reminded although the corrected sweep reminds it,
   * and since the tables stay as they were, a rerun finds the same batch.
   */
  lemma DueDateBlocksRemindersAsWritten(t: Tables, now: int, x: ReminderRow)
    requires x in SelectDue(t, now) && x.activity.dueAt.Some?
    requires !RemindedToday(t.notifications, x.activity.actorId, ActivityTag(x.activity.id), now)
    ensures ReminderSweepAsWritten(t, now) == t
    ensures !RemindedToday(ReminderSweepAsWritten(t, now).notifications, x.activity.actorId, ActivityTag(x.activity.id), now)
    ensures RemindedToday(ReminderFold(t, SelectDue(t, now), now).notifications, x.activity.actorId, ActivityTag(x.activity.id), now)
  {
    FoldReminds(t, SelectDue(t, now), now);
  }

  /** Without due dates in the batch, the sweep as written and the corrected one agree. */
  lemma NoDueDateAsWrittenAgrees(t: Tables, now: int)
    requires forall x :: x in SelectDue(t, now) ==> x.activity.dueAt.None?
    ensures ReminderSweepAsWritten(t, now) == ReminderFold(t, SelectDue(t, now), now)
  {
  }

  /** The dedup query: a notification of the actor dated today whose message ends with the tag. */
  predicate RemindedToday(ns: seq<Notification>, actor: int, tag: string, now: int)
  {
    exists n | n in ns :: n.userId == actor && EndsWith(n.message, tag) && Day(n.createdAt) == Day(now)
  }

  function ReminderStep(t: Tables, row: ReminderRow, now: int): Tables
  {
    var a := row.activity;
    if RemindedToday(t.notifications, a.actorId, ActivityTag(a.id), now) then t
    else t.(notifications := t.notifications + [Notification(a.actorId, a.leadId, ReminderMessage(row), Info, false, true, now)])
  }

  function ReminderFold(t: Tables, rows: seq<ReminderRow>, now: int): (r: Tables)
    ensures r == t.(notifications := r.notifications)
    ensures |t.notifications| <= |r.notifications| && r.notifications[..|t.notifications|] == t.notifications
    decreases |rows|
  {
    if |rows| == 0 then t
    else
      var prev := ReminderFold(t, rows[..|rows| - 1], now);
      var r := ReminderStep(prev, rows[|rows| - 1], now);
      assert r.notifications[..|prev.notifications|] == prev.notifications;
      assert prev.notifications[..|t.notifications|] == t.notifications;
      r
  }

  lemma NotificationsGrow(a: seq<Notification>, b: seq<Notification>, n: Notification)
    requires |a| <= |b| && b[..|a|] == a && n in a
    ensures n in b
  {
    var k :| 0 <= k < |a| && a[k] == n;
    assert b[k] == n;
  }

  /** After the sweep, every activity of the batch has its reminder for today. */
  lemma {:induction false} FoldReminds(t: Tables, rows: seq<ReminderRow>, now: int)
    ensures var r := ReminderFold(t, rows, now);
      forall x :: x in rows ==> RemindedToday(r.notifications, x.activity.actorId, ActivityTag(x.activity.id), now)
    decreases |rows|
  {
    if |rows| > 0 {
      var prev := ReminderFold(t, rows[..|rows| - 1], now);
      var last := rows[|rows| - 1];
      var r := ReminderFold(t, rows, now);
      FoldReminds(t, rows[..|rows| - 1], now);
      assert r == ReminderStep(prev, last, now);
      forall x | x in rows
        ensures RemindedToday(r.notifications, x.activity.actorId, ActivityTag(x.activity.id), now)
      {
        if x == last {
          if !RemindedToday(prev.notifications, last.activity.actorId, ActivityTag(last.activity.id), now) {
            var n := Notification(last.activity.actorId, last.activity.leadId, ReminderMessage(last), Info, false, true, now);
            assert n in r.notifications;
          }
        } else {
          assert x in rows[..|rows| - 1];
          var tag := ActivityTag(x.activity.id);
          var n :| n in prev.notifications && n.userId == x.activity.actorId && EndsWith(n.message, tag) && Day(n.createdAt) == Day(now);
          NotificationsGrow(prev.notifications, r.notifications, n);
        }
      }
    }
  }

  /** When every row is already reminded today, the sweep writes nothing. */
  lemma {:induction false} FoldRemindedIsIdentity(t: Tables, rows: seq<ReminderRow>, now: int)
    requires forall x :: x in rows ==> RemindedToday(t.notifications, x.activity.actorId, ActivityTag(x.activity.id), now)
    ensures ReminderFold(t, rows, now) == t
    decreases |rows|
  {
    if |rows| > 0 {
      FoldRemindedIsIdentity(t, rows[..|rows| - 1], now);
      assert rows[|rows| - 1] in rows;
    }
  }

  /** The batch depends only on activities, leads and users, which the sweep leaves alone. */
  lemma DueRowsSameTables(t: Tables, u: Tables, acts: seq<Activity>, now: int)
    requires t.leads == u.leads && t.users == u.users
    ensures DueRows(t, acts, now) == DueRows(u, acts, now)
  {
  }

  /**
   * At most one reminder per activity, actor and day: running the sweep a
   * second time on the same day writes nothing more.
   */
  lemma ReminderSweepIdempotent(t: Tables, now: int)
    ensures var t1 := ReminderFold(t, SelectDue(t, now), now);
      SelectDue(t1, now) == SelectDue(t, now) && ReminderFold(t1, SelectDue(t1, now), now) == t1
  {
    var b := SelectDue(t, now);
    var t1 := ReminderFold(t, b, now);
    DueRowsSameTables(t, t1, t.activities, now);
    assert SelectDue(t1, now) == b;
    FoldReminds(t, b, now);
    FoldRemindedIsIdentity(t1, b, now);
  }

  lemma ReminderFoldStep(t: Tables, rows: seq<ReminderRow>, i: nat, now: int)
    requires i < |rows|
    ensures ReminderFold(t, rows[..i + 1], now) == ReminderStep(ReminderFold(t, rows[..i], now), rows[i], now)
  {
    assert rows[..i + 1][..i] == rows[..i];
  }

  /** The loop of the reminder sweep over a given batch. */
  method RemindRows(db: Db, batch: seq<ReminderRow>, now: int)
    requires db.Valid()
    modifies db
    ensures db.Valid()
    ensures db.tables == ReminderFold(old(db.tables), batch, now)
  {
    var t := db.tables;
    ghost var t0 := t;
    for i := 0 to |batch|
      invariant t == ReminderFold(t0, batch[..i], now)
    {
      ReminderFoldStep(t0, batch, i, now);
      var a := batch[i].activity;
      var seen := RemindedToday(t.notifications, a.actorId, ActivityTag(a.id), now);
      if !seen {
        t := t.(notifications := t.notifications + [Notification(a.actorId, a.leadId, ReminderMessage(batch[i]), Info, false, true, now)]);
      }
    }
    assert batch[..|batch|] == batch;
    db.tables := t;
  }

  /**
   * The reminder sweep, corrected to print due dates: one 'info' notification
   * per due activity not yet reminded today. ReminderSweepAsWritten is the job
   * as the handler runs it.
   */
  method SendActivityReminders(db: Db, now: int) returns (batch: seq<ReminderRow>)
    requires db.Valid()
    modifies db
    ensures db.Valid()
    ensures batch == SelectDue(old(db.tables), now)
    ensures db.tables == ReminderFold(old(db.tables), batch, now)
  {
    batch := SelectDue(db.tables, now);
    RemindRows(db, batch, now);
  }
}
