/**
 * Administration of the pipeline stages, open to admins only: a new stage
 * goes after the last one, a stage still holding leads cannot be deleted,
 * and a drag-and-drop reorder numbers the listed stages 1, 2, 3, … in order.
 */
module StageAdmin {
  import opened Wrappers
  import opened Text
  import opened Schema
  import opened Store
  import opened Rows
  import opened Lifecycle
  import opened Forms

  /** `SELECT MAX(position)`: NULL on an empty table. */
  function MaxPosition(stages: seq<Stage>): (r: Option<int>)
    ensures r.None? <==> |stages| == 0
    ensures r.Some? ==> exists s :: s in stages && s.position == r.value
    ensures r.Some? ==> forall s :: s in stages ==> s.position <= r.value
  {
    if |stages| == 0 then None
    else
      var rest := MaxPosition(stages[1..]);
      assert stages == [stages[0]] + stages[1..];
      if rest.Some? && rest.value > stages[0].position then rest else Some(stages[0].position)
  }

  /** `(max_pos or 0) + 1`. */
  function NextPosition(stages: seq<Stage>): int
  {
    var m := MaxPosition(stages);
    (if m.Some? && m.value != 0 then m.value else 0) + 1
  }

  /** A new stage comes after every existing one, and is first in an empty pipeline. */
  lemma NextPositionIsLast(stages: seq<Stage>)
    ensures forall s :: s in stages ==> s.position < NextPosition(stages)
    ensures |stages| == 0 ==> NextPosition(stages) == 1
    ensures forall s :: s in stages && s.position >= 1 ==> NextPosition(stages) == MaxPosition(stages).value + 1
  {
  }

  /** The form's `DataRequired` and `Length(max=100)` on the stage name. */
  predicate NameValid(name: string)
  {
    RequiredFits(name, 100)
  }

  /** `PipelineStageForm`: name, colour (at most 7) and description (at most 500). */
  predicate FormValid(name: string, color: string, description: string)
  {
    NameValid(name) && OptionalFits(color, 7) && OptionalFits(description, 500)
  }

  const DefaultColor := "#6c757d"

  /** `form.color.data or '#6c757d'`. */
  function StoredColor(color: string): (c: string)
    ensures c != ""
    ensures color != "" ==> c == color
  {
    if color == "" then DefaultColor else color
  }

  /** Some stage already carries the name, which `name TEXT UNIQUE` forbids a second time. */
  predicate NameTaken(stages: seq<Stage>, name: string)
  {
    exists s :: s in stages && s.name == name
  }

  /** Some stage other than `stageId` carries the name. */
  predicate NameTakenByOther(stages: seq<Stage>, name: string, stageId: int)
  {
    exists s :: s in stages && s.name == name && s.id != stageId
  }

  /** No two stages share a name. */
  predicate NamesDistinct(stages: seq<Stage>)
  {
    forall i, j :: 0 <= i < j < |stages| ==> stages[i].name != stages[j].name
  }

  /**
   * `new_stage` with its INSERT naming `created_by_id` as the schema requires:
   * the row names the acting admin, so it fails when the admin has no user row
   * (the foreign key) or the name is taken (the UNIQUE constraint).
   */
  function NewStageOutcome(t: Tables, actor: User, name: string, color: string, description: string): Outcome
  {
    if actor.role != Admin then Forbidden
    else if !FormValid(name, color, description) then BadRequest
    else if FindUser(t.users, actor.id).None? || NameTaken(t.stages, name) then Failed
    else Ok
  }

  /**
   * `new_stage` as written: the INSERT leaves out `created_by_id`, which is
   * NOT NULL without a default, so every valid submission raises; there is
   * no `try`, and nothing is committed.
   */
  function NewStageOutcomeAsWritten(actor: User, name: string, color: string, description: string): Outcome
  {
    if actor.role != Admin then Forbidden
    else if !FormValid(name, color, description) then BadRequest
    else Failed
  }

  /**
   * As written, no stage can ever be created; the two versions differ exactly
   * where the corrected one commits.
   */
  lemma NewStageNeverCommitsAsWritten(t: Tables, actor: User, name: string, color: string, description: string)
    ensures NewStageOutcomeAsWritten(actor, name, color, description) != Ok
    ensures NewStageOutcomeAsWritten(actor, name, color, description) ==
      (if NewStageOutcome(t, actor, name, color, description) == Ok then Failed else NewStageOutcome(t, actor, name, color, description))
    ensures actor.role == Admin && FormValid(name, color, description) && actor in t.users && !NameTaken(t.stages, name) ==>
      NewStageOutcome(t, actor, name, color, description) == Ok
  {
    if actor in t.users {
      assert FindUser(t.users, actor.id).Some?;
    }
  }

  /** A stage whose name is not taken keeps the names distinct. */
  lemma {:induction false} AppendKeepsNamesDistinct(stages: seq<Stage>, s: Stage)
    requires NamesDistinct(stages) && !NameTaken(stages, s.name)
    ensures NamesDistinct(stages + [s])
  {
    var r := stages + [s];
    forall i, j | 0 <= i < j < |r|
      ensures r[i].name != r[j].name
    {
      if j == |stages| {
        assert r[i] in stages;
      }
    }
  }

  /** `new_stage` (with the `created_by_id` the schema requires; see `NewStageOutcomeAsWritten`). */
  method NewStage(db: Db, actor: User, name: string, color: string, description: string) returns (r: Outcome)
    requires db.Valid()
    modifies db
    ensures db.Valid()
    ensures r == NewStageOutcome(old(db.tables), actor, name, color, description)
    ensures r == Ok <==>
      actor.role == Admin && FormValid(name, color, description) &&
      FindUser(old(db.tables.users), actor.id).Some? && !NameTaken(old(db.tables.stages), name)
    ensures r != Ok ==> db.tables == old(db.tables)
    ensures r == Ok ==> db.tables == old(db.tables).(
      stages := old(db.tables.stages) +
        [Stage(old(db.tables.nextStageId), name, StoredColor(color), description, NextPosition(old(db.tables.stages)), actor.id)],
      nextStageId := old(db.tables.nextStageId) + 1)
    ensures NamesDistinct(old(db.tables.stages)) ==> NamesDistinct(db.tables.stages)
  {
    if actor.role != Admin {
      return Forbidden;
    }
    if !FormValid(name, color, description) {
      return BadRequest;
    }
    var t := db.tables;
    if FindUser(t.users, actor.id).None? || NameTaken(t.stages, name) {
      return Failed;
    }
    var s := Stage(t.nextStageId, name, StoredColor(color), description, NextPosition(t.stages), actor.id);
    if NamesDistinct(t.stages) {
      AppendKeepsNamesDistinct(t.stages, s);
    }
    StageAddedValid(t, s);
    db.tables := t.(stages := t.stages + [s], nextStageId := t.nextStageId + 1);
    r := Ok;
  }

  function StageIndex(stages: seq<Stage>, id: int): (r: Option<nat>)
    ensures r.Some? ==> r.value < |stages| && stages[r.value].id == id
    ensures r.None? ==> forall s :: s in stages ==> s.id != id
  {
    if |stages| == 0 then None
    else if stages[0].id == id then Some(0)
    else match StageIndex(stages[1..], id)
      case None => None
      case Some(k) => Some(k + 1)
  }

  /** Replacing stage `k` by a row named as no other stage is keeps the names distinct. */
  lemma {:induction false} RenameKeepsNamesDistinct(stages: seq<Stage>, k: nat, s: Stage)
    requires k < |stages| && NamesDistinct(stages) && !NameTakenByOther(stages, s.name, stages[k].id)
    requires forall i, j :: 0 <= i < j < |stages| ==> stages[i].id != stages[j].id
    ensures NamesDistinct(stages[k := s])
  {
    var r := stages[k := s];
    forall i, j | 0 <= i < j < |r|
      ensures r[i].name != r[j].name
    {
      if i == k {
        assert stages[j] in stages && stages[j].id != stages[k].id;
      } else if j == k {
        assert stages[i] in stages && stages[i].id != stages[k].id;
      }
    }
  }

  /**
   * `edit_stage`: the missing stage is reported before the form is looked at;
   * the UPDATE raises when another stage already has the name; the position
   * and the creator are kept.
   */
  method EditStage(db: Db, actor: User, stageId: int, name: string, color: string, description: string) returns (r: Outcome)
    requires db.Valid()
    modifies db
    ensures db.Valid()
    ensures r == (if actor.role != Admin then Forbidden
                  else if StageIndex(old(db.tables.stages), stageId).None? then NotFound
                  else if !FormValid(name, color, description) then BadRequest
                  else if NameTakenByOther(old(db.tables.stages), name, stageId) then Failed
                  else Ok)
    ensures r != Ok ==> db.tables == old(db.tables)
    ensures r == Ok ==> var k := StageIndex(old(db.tables.stages), stageId).value;
      db.tables == old(db.tables).(stages := old(db.tables.stages)[k :=
        old(db.tables.stages)[k].(name := name, color := StoredColor(color), description := description)])
    ensures NamesDistinct(old(db.tables.stages)) ==> NamesDistinct(db.tables.stages)
  {
    if actor.role != Admin {
      return Forbidden;
    }
    var t := db.tables;
    var found := StageIndex(t.stages, stageId);
    if found.None? {
      return NotFound;
    }
    if !FormValid(name, color, description) {
      return BadRequest;
    }
    if NameTakenByOther(t.stages, name, stageId) {
      return Failed;
    }
    var k := found.value;
    var s := t.stages[k].(name := name, color := StoredColor(color), description := description);
    if NamesDistinct(t.stages) {
      RenameKeepsNamesDistinct(t.stages, k, s);
    }
    db.tables := t.(stages := t.stages[k := s]);
    r := Ok;
  }

  /** Some lead, of any status, sits on the stage. */
  predicate StageInUse(t: Tables, stageId: int)
  {
    exists id :: id in t.leads && t.leads[id].stage == Some(stageId)
  }

  function WithoutStage(stages: seq<Stage>, stageId: int): seq<Stage>
  {
    Filter(stages, (s: Stage) => s.id != stageId)
  }

  /** Some stage-history row names the stage as where a lead came from or went to. */
  predicate StageInHistory(t: Tables, stageId: int)
  {
    exists h :: h in t.stageHistory && (h.fromStage == Some(stageId) || h.toStage == stageId)
  }

  /**
   * The foreign keys onto `pipeline_stages`: every lead's stage, and both
   * ends of every stage-history row, are stages of the pipeline.
   */
  predicate StagesReferenced(t: Tables)
  {
    (forall id :: id in t.leads && t.leads[id].stage.Some? ==> FindStage(t.stages, t.leads[id].stage.value).Some?) &&
    (forall h :: h in t.stageHistory ==>
      FindStage(t.stages, h.toStage).Some? && (h.fromStage.Some? ==> FindStage(t.stages, h.fromStage.value).Some?))
  }

  /**
   * Deleting a stage that no lead sits on and no history row names takes
   * away only that stage and keeps every reference onto the stages intact.
   */
  lemma DeleteStageSafe(t: Tables, stageId: int)
    requires StagesReferenced(t) && !StageInUse(t, stageId) && !StageInHistory(t, stageId)
    ensures StagesReferenced(t.(stages := WithoutStage(t.stages, stageId)))
    ensures forall s :: s in WithoutStage(t.stages, stageId) <==> s in t.stages && s.id != stageId
  {
    var keep := (s: Stage) => s.id != stageId;
    var rest := WithoutStage(t.stages, stageId);
    FilterMembers(t.stages, keep);
    forall sid | sid != stageId && FindStage(t.stages, sid).Some?
      ensures FindStage(rest, sid).Some?
    {
      var st := FindStage(t.stages, sid).value;
      assert st in rest;
    }
    forall id | id in t.leads && t.leads[id].stage.Some?
      ensures FindStage(rest, t.leads[id].stage.value).Some?
    {
    }
    forall h | h in t.stageHistory
      ensures FindStage(rest, h.toStage).Some? && (h.fromStage.Some? ==> FindStage(rest, h.fromStage.value).Some?)
    {
    }
  }

  /** A stage some history row names cannot be removed without breaking the history's reference onto it. */
  lemma DeleteStageInHistoryDangles(t: Tables, stageId: int)
    requires StageInHistory(t, stageId)
    ensures !StagesReferenced(t.(stages := WithoutStage(t.stages, stageId)))
  {
    var h :| h in t.stageHistory && (h.fromStage == Some(stageId) || h.toStage == stageId);
    FilterMembers(t.stages, (s: Stage) => s.id != stageId);
  }

  lemma {:induction false} FilterStagesFresh(stages: seq<Stage>, keep: Stage -> bool, next: int)
    requires StageIdsFresh(stages, next)
    ensures StageIdsFresh(Filter(stages, keep), next)
    decreases |stages|
  {
    if |stages| > 0 {
      assert StageIdsFresh(stages[1..], next);
      FilterStagesFresh(stages[1..], keep, next);
      FilterMembers(stages[1..], keep);
      var rest := Filter(stages[1..], keep);
      forall k | 0 <= k < |rest|
        ensures stages[0].id != rest[k].id
      {
        assert rest[k] in stages[1..];
        var j :| 0 <= j < |stages[1..]| && stages[1..][j] == rest[k];
        assert stages[j + 1] == rest[k];
      }
    }
  }

  /**
   * `delete_stage`: refused while any lead sits on the stage; a stage that a
   * history row names makes the unguarded DELETE raise under the foreign keys
   * (an error page, nothing deleted); deleting an absent stage changes nothing.
   */
  method DeleteStage(db: Db, actor: User, stageId: int) returns (r: Outcome)
    requires db.Valid()
    modifies db
    ensures db.Valid()
    ensures r == (if actor.role != Admin then Forbidden
                  else if StageInUse(old(db.tables), stageId) then InvalidState
                  else if StageInHistory(old(db.tables), stageId) then Failed
                  else Ok)
    ensures r != Ok ==> db.tables == old(db.tables)
    ensures r == Ok ==> db.tables == old(db.tables).(stages := WithoutStage(old(db.tables.stages), stageId))
  {
    if actor.role != Admin {
      return Forbidden;
    }
    var t := db.tables;
    if StageInUse(t, stageId) {
      return InvalidState;
    }
    if StageInHistory(t, stageId) {
      return Failed;
    }
    FilterStagesFresh(t.stages, (s: Stage) => s.id != stageId, t.nextStageId);
    db.tables := t.(stages := WithoutStage(t.stages, stageId));
    r := Ok;
  }

  /** One `UPDATE pipeline_stages SET position = … WHERE id = …`. */
  function SetPosition(stages: seq<Stage>, id: int, position: int): (r: seq<Stage>)
    ensures |r| == |stages|
    ensures forall k :: 0 <= k < |r| ==> r[k].id == stages[k].id && r[k].name == stages[k].name
  {
    MapRows(stages, (s: Stage) => if s.id == id then s.(position := position) else s)
  }

  /** The updates of the reorder loop for the first |ids| entries: entry i gives position i + 1. */
  function Reordered(stages: seq<Stage>, ids: seq<int>): seq<Stage>
  {
    if |ids| == 0 then stages
    else SetPosition(Reordered(stages, ids[..|ids| - 1]), ids[|ids| - 1], |ids|)
  }

  /** The index of the last occurrence of `x`. */
  function LastPos(ids: seq<int>, x: int): (j: nat)
    requires x in ids
    ensures j < |ids| && ids[j] == x && forall k :: j < k < |ids| ==> ids[k] != x
  {
    if ids[|ids| - 1] == x then |ids| - 1 else LastPos(ids[..|ids| - 1], x)
  }

  /**
   * After the reorder, a listed stage's position is one more than the index
   * of its last listing; an unlisted stage keeps its position; names and ids
   * stay as they were.
   */
  lemma {:induction false} ReorderedPositions(stages: seq<Stage>, ids: seq<int>)
    ensures var r := Reordered(stages, ids);
      |r| == |stages| &&
      forall k :: 0 <= k < |stages| ==>
        r[k].id == stages[k].id && r[k].name == stages[k].name &&
        r[k].position == (if stages[k].id in ids then LastPos(ids, stages[k].id) + 1 else stages[k].position)
  {
    if |ids| > 0 {
      var n := |ids| - 1;
      ReorderedPositions(stages, ids[..n]);
      forall k | 0 <= k < |stages|
        ensures stages[k].id in ids ==> LastPos(ids, stages[k].id) == (if ids[n] == stages[k].id then n else LastPos(ids[..n], stages[k].id))
        ensures stages[k].id !in ids ==> stages[k].id !in ids[..n] && ids[n] != stages[k].id
        ensures stages[k].id in ids && ids[n] != stages[k].id ==> stages[k].id in ids[..n]
      {
        assert ids == ids[..n] + [ids[n]];
      }
    }
  }

  /**
   * When the request lists every stage once, the stages end up numbered
   * 1..N in the listed order: each stage's position points back at its own
   * place in the list.
   */
  lemma ReorderPermutation(stages: seq<Stage>, ids: seq<int>)
    requires forall i, j :: 0 <= i < j < |ids| ==> ids[i] != ids[j]
    requires forall s :: s in stages ==> s.id in ids
    ensures var r := Reordered(stages, ids);
      forall k :: 0 <= k < |r| ==> 1 <= r[k].position <= |ids| && ids[r[k].position - 1] == r[k].id
  {
    ReorderedPositions(stages, ids);
    forall k | 0 <= k < |stages|
      ensures stages[k].id in ids
    {
      assert stages[k] in stages;
    }
  }

  lemma SetPositionKeepsFresh(stages: seq<Stage>, id: int, position: int, next: int)
    requires StageIdsFresh(stages, next)
    ensures StageIdsFresh(SetPosition(stages, id, position), next)
  {
  }

  /** `reorder_stages`: a missing, non-list or empty `stage_ids` is refused with 400. */
  method ReorderStages(db: Db, actor: User, ids: Option<seq<int>>) returns (r: Outcome)
    requires db.Valid()
    modifies db
    ensures db.Valid()
    ensures r == (if actor.role != Admin then Forbidden else if ids.None? || |ids.value| == 0 then BadRequest else Ok)
    ensures r != Ok ==> db.tables == old(db.tables)
    ensures r == Ok ==> db.tables == old(db.tables).(stages := Reordered(old(db.tables.stages), ids.value))
  {
    if actor.role != Admin {
      return Forbidden;
    }
    if ids.None? || |ids.value| == 0 {
      return BadRequest;
    }
    var list := ids.value;
    var i := 0;
    while i < |list|
      invariant 0 <= i <= |list|
      invariant db.tables == old(db.tables).(stages := Reordered(old(db.tables.stages), list[..i]))
      invariant db.Valid()
    {
      SetPositionKeepsFresh(db.tables.stages, list[i], i + 1, db.tables.nextStageId);
      assert list[..i + 1][..i] == list[..i];
      db.tables := db.tables.(stages := SetPosition(db.tables.stages, list[i], i + 1));
      i := i + 1;
    }
    assert list[..|list|] == list;
    r := Ok;
  }
}
