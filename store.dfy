/**
 * The database the request handlers and background jobs share: every table
 * the lifecycle touches, held as one record so a handler's contract can say
 * exactly which tables it changes, plus the assignment-settings row.
 */
module Store {
  import opened Wrappers
  import opened Schema
  import opened RoundRobin

  /**
   * What a handler answers; every answer but Ok leaves the database untouched.
   * Failed is a request that raises before committing.
   */
  datatype Outcome = Ok | Forbidden | NotFound | InvalidState | BadRequest | Failed

  datatype Tables = Tables(
    users: seq<User>,
    leads: map<int, Lead>,
    nextLeadId: int,
    assignments: seq<Assignment>,
    reassignments: seq<Reassignment>,
    notes: seq<Note>,
    bdHistory: seq<BdHistory>,
    stageHistory: seq<StageHistory>,
    notifications: seq<Notification>,
    activities: seq<Activity>,
    nextActivityId: int,
    stages: seq<Stage>,
    nextStageId: int,
    editChanges: seq<EditChange>)

  /** Activity ids are distinct and below the next one to be handed out. */
  predicate ActivityIdsFresh(acts: seq<Activity>, next: int)
  {
    (forall i :: 0 <= i < |acts| ==> 0 < acts[i].id < next) &&
    (forall i, j :: 0 <= i < j < |acts| ==> acts[i].id != acts[j].id)
  }

  /** Stage ids are distinct, positive and below the next one to be handed out. */
  predicate StageIdsFresh(stages: seq<Stage>, next: int)
  {
    (forall i :: 0 <= i < |stages| ==> 0 < stages[i].id < next) &&
    (forall i, j :: 0 <= i < j < |stages| ==> stages[i].id != stages[j].id)
  }

  /** The key discipline of the AUTOINCREMENT tables. */
  predicate TablesValid(t: Tables)
  {
    UsersOrdered(t.users) &&
    t.nextLeadId > 0 && (forall id :: id in t.leads ==> 0 < id < t.nextLeadId) &&
    t.nextActivityId > 0 && ActivityIdsFresh(t.activities, t.nextActivityId) &&
    t.nextStageId > 0 && StageIdsFresh(t.stages, t.nextStageId)
  }

  /** A change that keeps the users, the lead ids, the activities, the stages and the counters keeps the tables valid. */
  lemma SameKeysValid(t: Tables, t': Tables)
    requires TablesValid(t)
    requires t'.users == t.users && t'.leads.Keys == t.leads.Keys && t'.nextLeadId == t.nextLeadId
    requires t'.activities == t.activities && t'.nextActivityId == t.nextActivityId
    requires t'.stages == t.stages && t'.nextStageId == t.nextStageId
    ensures TablesValid(t')
  {
    assert forall id :: id in t'.leads ==> id in t.leads;
  }

  /** Appending a stage with the next stage id, and moving the counter past it, keeps the tables valid. */
  lemma StageAddedValid(t: Tables, s: Stage)
    requires TablesValid(t) && s.id == t.nextStageId
    ensures TablesValid(t.(stages := t.stages + [s], nextStageId := t.nextStageId + 1))
  {
    var ss := t.stages + [s];
    assert forall i :: 0 <= i < |t.stages| ==> ss[i] == t.stages[i];
  }

  function EmptyTables(): (t: Tables)
    ensures TablesValid(t)
  {
    Tables([], map[], 1, [], [], [], [], [], [], [], 1, [], 1, [])
  }

  class Db {
    var tables: Tables
    const settings: AssignmentSettings

    ghost predicate Valid()
      reads this, settings
    {
      TablesValid(tables) && settings.Valid() && settings.rowExists
    }

    /** `init_db` on an empty database: the tables, and the assignment-settings row with id 1. */
    constructor InitDb()
      ensures Valid() && fresh(settings)
      ensures tables == EmptyTables()
      ensures settings.lastManagerId.None? && settings.lastBdId.None?
    {
      tables := EmptyTables();
      var s := new AssignmentSettings();
      s.EnsureRow();
      settings := s;
    }
  }
}
