/**
 * The unified timeline of a lead's page: one entry for the submission, one per
 * note, BD-history row, stage-history row and activity of the lead (each
 * joined with the users it names), styled by kind and ordered newest first.
 */
module Timeline {
  import opened Wrappers
  import opened Text
  import opened Schema
  import opened Store
  import opened Sorting
  import opened Lifecycle

  datatype EntryKind = LeadCreated | NoteEntry | BdAssignmentEntry | StageChangeEntry | ActivityEntry

  datatype Entry = Entry(timestamp: int, kind: EntryKind, icon: string, color: string, title: string,
                         description: string, userName: string)

  /** A title, or else the activity type with '_' as ' ' in title case. */
  function ActivityTitle(a: Activity): string
  {
    if a.title.Some? && a.title.value != "" then a.title.value
    else TitleFrom(ReplaceChar(ActivityTypeName(a.activityType), '_', ' '), false)
  }

  /** Icon, colour and title of a note, by its type and, for system notes, its text. */
  function NoteStyle(n: Note): (string, string, string)
  {
    match n.noteType
    case RejectionNote => ("fa-times-circle", "danger", "Lead Rejected")
    case ResubmissionNote => ("fa-paper-plane", "info", "Lead Resubmitted")
    case EditNote => ("fa-edit", "warning", "Lead Edited")
    case ReversionNote => ("fa-undo", "danger", "Lead Reverted")
    case SystemNote =>
      if Contains(Lower(n.message), "accepted") then ("fa-check-circle", "success", "Lead Accepted")
      else ("fa-info-circle", "primary", "System Event")
  }

  /** A note shows as an acceptance iff it is a system note whose text mentions "accepted" in any case. */
  lemma NoteAcceptedIff(n: Note)
    ensures NoteStyle(n).2 == "Lead Accepted" <==> n.noteType == SystemNote && Contains(Lower(n.message), "accepted")
    ensures n.noteType != SystemNote ==> NoteStyle(n).2 == TitleFor(n.noteType)
  {
  }

  /** What each non-system note type is shown as. */
  function TitleFor(t: NoteType): string
  {
    match t
    case RejectionNote => "Lead Rejected"
    case ResubmissionNote => "Lead Resubmitted"
    case EditNote => "Lead Edited"
    case ReversionNote => "Lead Reverted"
    case SystemNote => "System Event"
  }

  /** The note the accept handler writes shows on the timeline as "Lead Accepted". */
  lemma AcceptNoteShownAccepted(leadId: int, actor: User, now: int)
    ensures NoteStyle(Note(leadId, actor.id, SystemNote, "Lead accepted by " + actor.name, now)).2 == "Lead Accepted"
  {
    var m := "Lead accepted by " + actor.name;
    assert Lower(m)[5..13] == "accepted";
    assert OccursAt(Lower(m), "accepted", 5);
  }

  /** Icon and colour of an activity by its type. */
  function ActivityStyle(t: ActivityType): (string, string)
  {
    match t
    case NoteActivity => ("fa-sticky-note", "info")
    case Task => ("fa-tasks", "warning")
    case FollowUp => ("fa-phone-volume", "success")
    case CallLog => ("fa-phone", "primary")
    case EmailLog => ("fa-envelope", "secondary")
    case AssignmentActivity => ("fa-user-plus", "info")
    case StageChangeActivity => ("fa-exchange-alt", "purple")
    case ReminderActivity => ("fa-sticky-note", "info")
  }

  /** A name from a LEFT JOIN: Python prints a missing one as "None". */
  function JoinedName(users: seq<User>, id: Option<int>): string
  {
    if id.None? then "None"
    else match FindUser(users, id.value)
      case Some(u) => u.name
      case None => "None"
  }

  function CreatedEntry(users: seq<User>, lead: Lead): Entry
  {
    var who := match FindUser(users, lead.submitter) case Some(u) => u.name case None => "Unknown";
    Entry(lead.createdAt, LeadCreated, "fa-plus-circle", "success", "Lead Submitted", "Lead submitted by " + who, who)
  }

  function NoteToEntry(users: seq<User>, n: Note): Entry
  {
    var style := NoteStyle(n);
    Entry(n.createdAt, NoteEntry, style.0, style.1, style.2, n.message, NameOf(users, n.author))
  }

  function BdToEntry(users: seq<User>, h: BdHistory): Entry
  {
    var byName := NameOf(users, h.assignedBy);
    var toName := NameOf(users, h.toBd);
    if h.fromBd.Some? && h.fromBd.value != 0 then
      Entry(h.at, BdAssignmentEntry, "fa-user-tie", "info", "BD Reassignment",
            byName + " reassigned lead from " + JoinedName(users, h.fromBd) + " to " + toName + (if h.reason != "" then "\nReason: " + h.reason else ""), byName)
    else
      Entry(h.at, BdAssignmentEntry, "fa-user-tie", "info", "Assigned to BD Sales",
            byName + " assigned lead to " + toName + (if h.reason != "" then "\nNote: " + h.reason else ""), byName)
  }

  function StageToEntry(users: seq<User>, stages: seq<Stage>, h: StageHistory): Entry
  {
    var toName := match FindStage(stages, h.toStage) case Some(s) => s.name case None => "";
    var fromStage := if h.fromStage.Some? then FindStage(stages, h.fromStage.value) else None;
    var d := if fromStage.Some? && fromStage.value.name != "" then "Stage changed from '" + fromStage.value.name + "' to '" + toName + "'"
             else "Stage set to '" + toName + "'";
    var d' := if h.note.Some? && h.note.value != "" then d + "\nNote: " + h.note.value else d;
    Entry(h.at, StageChangeEntry, "fa-exchange-alt", "purple", "Pipeline Stage Changed", d', NameOf(users, h.changedBy))
  }

  function ActivityToEntry(users: seq<User>, a: Activity): Entry
  {
    var style := ActivityStyle(a.activityType);
    Entry(a.createdAt, ActivityEntry, style.0, style.1, ActivityTitle(a), a.description, NameOf(users, a.actorId))
  }

  predicate UserExists(users: seq<User>, id: int)
  {
    FindUser(users, id).Some?
  }

  // The four queries: the lead's rows whose inner joins find their users (and stage).

  function LeadNotes(ns: seq<Note>, users: seq<User>, leadId: int): (r: seq<Note>)
    ensures forall n :: n in r <==> n in ns && n.leadId == leadId && UserExists(users, n.author)
    ensures |r| <= |ns|
  {
    if |ns| == 0 then []
    else (if ns[0].leadId == leadId && UserExists(users, ns[0].author) then [ns[0]] else []) + LeadNotes(ns[1..], users, leadId)
  }

  function LeadBdHistory(hs: seq<BdHistory>, users: seq<User>, leadId: int): (r: seq<BdHistory>)
    ensures forall h :: h in r <==> h in hs && h.leadId == leadId && UserExists(users, h.assignedBy) && UserExists(users, h.toBd)
  {
    if |hs| == 0 then []
    else
      var h := hs[0];
      (if h.leadId == leadId && UserExists(users, h.assignedBy) && UserExists(users, h.toBd) then [h] else [])
        + LeadBdHistory(hs[1..], users, leadId)
  }

  function LeadStageHistory(hs: seq<StageHistory>, users: seq<User>, stages: seq<Stage>, leadId: int): (r: seq<StageHistory>)
    ensures forall h :: h in r <==> (h in hs && h.leadId == leadId && UserExists(users, h.changedBy) &&
                                     FindStage(stages, h.toStage).Some?)
  {
    if |hs| == 0 then []
    else
      var h := hs[0];
      (if h.leadId == leadId && UserExists(users, h.changedBy) && FindStage(stages, h.toStage).Some? then [h] else [])
        + LeadStageHistory(hs[1..], users, stages, leadId)
  }

  function LeadActivities(acts: seq<Activity>, users: seq<User>, leadId: int): (r: seq<Activity>)
    ensures forall a :: a in r <==> a in acts && a.leadId == leadId && UserExists(users, a.actorId)
  {
    if |acts| == 0 then []
    else (if acts[0].leadId == leadId && UserExists(users, acts[0].actorId) then [acts[0]] else []) + LeadActivities(acts[1..], users, leadId)
  }

  function NoteEntries(users: seq<User>, ns: seq<Note>): (r: seq<Entry>)
    ensures |r| == |ns|
  {
    seq(|ns|, i requires 0 <= i < |ns| => NoteToEntry(users, ns[i]))
  }

  function BdEntries(users: seq<User>, hs: seq<BdHistory>): (r: seq<Entry>)
    ensures |r| == |hs|
  {
    seq(|hs|, i requires 0 <= i < |hs| => BdToEntry(users, hs[i]))
  }

  function StageEntries(users: seq<User>, stages: seq<Stage>, hs: seq<StageHistory>): (r: seq<Entry>)
    ensures |r| == |hs|
  {
    seq(|hs|, i requires 0 <= i < |hs| => StageToEntry(users, stages, hs[i]))
  }

  function ActivityEntries(users: seq<User>, acts: seq<Activity>): (r: seq<Entry>)
    ensures |r| == |acts|
  {
    seq(|acts|, i requires 0 <= i < |acts| => ActivityToEntry(users, acts[i]))
  }

  /** The entries in the order they are appended, before the sort. */
  function Unsorted(t: Tables, leadId: int): seq<Entry>
    requires leadId in t.leads
  {
    [CreatedEntry(t.users, t.leads[leadId])] +
    NoteEntries(t.users, LeadNotes(t.notes, t.users, leadId)) +
    BdEntries(t.users, LeadBdHistory(t.bdHistory, t.users, leadId)) +
    StageEntries(t.users, t.stages, LeadStageHistory(t.stageHistory, t.users, t.stages, leadId)) +
    ActivityEntries(t.users, LeadActivities(t.activities, t.users, leadId))
  }

  /** `sort(key=timestamp, reverse=True)` as an ascending sort on the negated time. */
  function NewestFirst(e: Entry): int
  {
    -e.timestamp
  }

  /** Where the submission and the notes sit among the unsorted entries. */
  lemma UnsortedLayout(t: Tables, leadId: int)
    requires leadId in t.leads
    ensures var u := Unsorted(t, leadId);
      var ns := LeadNotes(t.notes, t.users, leadId);
      |u| == 1 + |ns| + |LeadBdHistory(t.bdHistory, t.users, leadId)| +
             |LeadStageHistory(t.stageHistory, t.users, t.stages, leadId)| + |LeadActivities(t.activities, t.users, leadId)| &&
      u[0] == CreatedEntry(t.users, t.leads[leadId]) &&
      forall k :: 0 <= k < |ns| ==> u[1 + k] == NoteToEntry(t.users, ns[k])
  {
    var ns := LeadNotes(t.notes, t.users, leadId);
    var a := NoteEntries(t.users, ns);
    assert forall k :: 0 <= k < |ns| ==> a[k] == NoteToEntry(t.users, ns[k]);
    ConcatLayout(CreatedEntry(t.users, t.leads[leadId]), a,
      BdEntries(t.users, LeadBdHistory(t.bdHistory, t.users, leadId)),
      StageEntries(t.users, t.stages, LeadStageHistory(t.stageHistory, t.users, t.stages, leadId)),
      ActivityEntries(t.users, LeadActivities(t.activities, t.users, leadId)));
  }

  /** Where a head and a first part sit in a concatenation of five parts. */
  lemma ConcatLayout<T>(h: T, a: seq<T>, b: seq<T>, c: seq<T>, d: seq<T>)
    ensures var u := [h] + a + b + c + d;
      |u| == 1 + |a| + |b| + |c| + |d| && u[0] == h && forall k :: 0 <= k < |a| ==> u[1 + k] == a[k]
  {
  }

  /** The submission and every note of the lead by an existing author appear in the timeline. */
  lemma TimelineHasNotes(t: Tables, leadId: int)
    requires leadId in t.leads
    ensures var tl := SortBy(Unsorted(t, leadId), NewestFirst);
      CreatedEntry(t.users, t.leads[leadId]) in tl &&
      forall n :: n in t.notes && n.leadId == leadId && UserExists(t.users, n.author) ==> NoteToEntry(t.users, n) in tl
  {
    var u := Unsorted(t, leadId);
    UnsortedLayout(t, leadId);
    InSorted(u[0], u, NewestFirst);
    var ns := LeadNotes(t.notes, t.users, leadId);
    forall n | n in t.notes && n.leadId == leadId && UserExists(t.users, n.author)
      ensures NoteToEntry(t.users, n) in SortBy(u, NewestFirst)
    {
      var k :| 0 <= k < |ns| && ns[k] == n;
      InSorted(u[1 + k], u, NewestFirst);
    }
  }

  /**
   * The timeline holds one entry per source row, newest first: the
   * submission, then every note, BD-history row, stage change and activity
   * of the lead.
   */
  lemma TimelineSpec(t: Tables, leadId: int)
    requires leadId in t.leads
    ensures var tl := SortBy(Unsorted(t, leadId), NewestFirst);
      (forall i, j :: 0 <= i < j < |tl| ==> tl[i].timestamp >= tl[j].timestamp) &&
      multiset(tl) == multiset(Unsorted(t, leadId)) &&
      CreatedEntry(t.users, t.leads[leadId]) in tl &&
      (forall n :: n in t.notes && n.leadId == leadId && UserExists(t.users, n.author) ==> NoteToEntry(t.users, n) in tl) &&
      |tl| == 1 + |LeadNotes(t.notes, t.users, leadId)| + |LeadBdHistory(t.bdHistory, t.users, leadId)| +
              |LeadStageHistory(t.stageHistory, t.users, t.stages, leadId)| + |LeadActivities(t.activities, t.users, leadId)|
  {
    var tl := SortBy(Unsorted(t, leadId), NewestFirst);
    UnsortedLayout(t, leadId);
    TimelineHasNotes(t, leadId);
    assert SortedBy(tl, NewestFirst);
  }

  /** One more row gives one more entry at the end. */
  lemma NoteEntriesStep(users: seq<User>, notes: seq<Note>, i: nat)
    requires i < |notes|
    ensures NoteEntries(users, notes[..i + 1]) == NoteEntries(users, notes[..i]) + [NoteToEntry(users, notes[i])]
  {
    assert notes[..i + 1][i] == notes[i];
  }

  method AppendNotes(timeline: seq<Entry>, users: seq<User>, notes: seq<Note>) returns (r: seq<Entry>)
    ensures r == timeline + NoteEntries(users, notes)
  {
    r := timeline;
    for i := 0 to |notes|
      invariant r == timeline + NoteEntries(users, notes[..i])
    {
      NoteEntriesStep(users, notes, i);
      r := r + [NoteToEntry(users, notes[i])];
    }
    assert notes[..|notes|] == notes;
  }

  /** One more row gives one more entry at the end. */
  lemma BdEntriesStep(users: seq<User>, bds: seq<BdHistory>, i: nat)
    requires i < |bds|
    ensures BdEntries(users, bds[..i + 1]) == BdEntries(users, bds[..i]) + [BdToEntry(users, bds[i])]
  {
    assert bds[..i + 1][i] == bds[i];
  }

  method AppendBdHistory(timeline: seq<Entry>, users: seq<User>, bds: seq<BdHistory>) returns (r: seq<Entry>)
    ensures r == timeline + BdEntries(users, bds)
  {
    r := timeline;
    for i := 0 to |bds|
      invariant r == timeline + BdEntries(users, bds[..i])
    {
      BdEntriesStep(users, bds, i);
      r := r + [BdToEntry(users, bds[i])];
    }
    assert bds[..|bds|] == bds;
  }

  /** One more row gives one more entry at the end. */
  lemma StageEntriesStep(users: seq<User>, stages: seq<Stage>, changes: seq<StageHistory>, i: nat)
    requires i < |changes|
    ensures StageEntries(users, stages, changes[..i + 1]) == StageEntries(users, stages, changes[..i]) + [StageToEntry(users, stages, changes[i])]
  {
    assert changes[..i + 1][i] == changes[i];
  }

  method AppendStageChanges(timeline: seq<Entry>, users: seq<User>, stages: seq<Stage>, changes: seq<StageHistory>)
    returns (r: seq<Entry>)
    ensures r == timeline + StageEntries(users, stages, changes)
  {
    r := timeline;
    for i := 0 to |changes|
      invariant r == timeline + StageEntries(users, stages, changes[..i])
    {
      StageEntriesStep(users, stages, changes, i);
      r := r + [StageToEntry(users, stages, changes[i])];
    }
    assert changes[..|changes|] == changes;
  }

  /** One more row gives one more entry at the end. */
  lemma ActivityEntriesStep(users: seq<User>, acts: seq<Activity>, i: nat)
    requires i < |acts|
    ensures ActivityEntries(users, acts[..i + 1]) == ActivityEntries(users, acts[..i]) + [ActivityToEntry(users, acts[i])]
  {
    assert acts[..i + 1][i] == acts[i];
  }

  method AppendActivities(timeline: seq<Entry>, users: seq<User>, acts: seq<Activity>) returns (r: seq<Entry>)
    ensures r == timeline + ActivityEntries(users, acts)
  {
    r := timeline;
    for i := 0 to |acts|
      invariant r == timeline + ActivityEntries(users, acts[..i])
    {
      ActivityEntriesStep(users, acts, i);
      r := r + [ActivityToEntry(users, acts[i])];
    }
    assert acts[..|acts|] == acts;
  }

  /** `build_unified_timeline`: append entry by entry, then sort newest first. */
  method BuildTimeline(t: Tables, leadId: int) returns (timeline: seq<Entry>)
    requires leadId in t.leads
    ensures timeline == SortBy(Unsorted(t, leadId), NewestFirst)
  {
    var users := t.users;
    timeline := [CreatedEntry(users, t.leads[leadId])];
    timeline := AppendNotes(timeline, users, LeadNotes(t.notes, users, leadId));
    timeline := AppendBdHistory(timeline, users, LeadBdHistory(t.bdHistory, users, leadId));
    timeline := AppendStageChanges(timeline, users, t.stages, LeadStageHistory(t.stageHistory, users, t.stages, leadId));
    timeline := AppendActivities(timeline, users, LeadActivities(t.activities, users, leadId));
    timeline := SortBy(timeline, NewestFirst);
  }
}
