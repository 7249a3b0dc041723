# LMS lead engine, modelled in Dafny

This project models the core of a small lead-management system (a Flask and
SQLite/PostgreSQL web application). In it, marketers submit sales leads.
Managers accept, reject or revert them. Business-development (BD) users then
move the accepted leads through a pipeline of stages.

The model covers these parts:

- **Round-robin allocation** (`rotation.dfy`). This is the pure rotation function and the
  `AssignmentSettings` class that holds the two pointers of the singleton
  `assignment_settings` row.
- **Lifecycle handlers** (`lifecycle.dfy`, `edits.dfy`). These are submit, accept, reject,
  revert, resubmit, BD assignment, stage move, task toggle and edit. Each is a method on
  the `Store.Db` object. Its contract states the answer, and the exact new tables as a
  function of the old ones. The effect lemmas then say what those functions append and
  change.
- **Background sweeps** (`sweeps.dfy`). These are the overdue-assignment reassignment
  and the activity-reminder sweep. Each takes the current time `now` as a parameter and
  loops over its selected batch.
- **Administration** (`users.dfy`, `stages.dfy`, `targets.dfy`). This covers user deletion
  with reference transfer or cascade under the foreign keys, pipeline stages and sales targets with period overlap.
- **Small rules** (`services.dfy`, `pagination.dfy`, `dashboard.dfy`, `retry.dfy`,
  `timeline.dfy`, `downloads.dfy`, `urls.dfy`). These are the services column and its
  filter, paging, the dashboard's count queries built by text replacement, lock retry,
  the unified timeline, and the `download_external` rewrite with the `urlsplit` and `urlparse` it
  relies on, including the error it raises.
- **Persistence helpers** (`sqlquery.dfy`, `schema.dfy`, `store.dfy`, `profiles.dfy`). These
  are the `%s` to `?` placeholder rewrite, the CHECK enumerations, `init_db`, and the
  user profile table.
- **Storage helpers** (`storage.dfy`, `attachments.dfy`). These are the Cloudinary URL
  parsers, the MIME lookup, upload typing, the candidate ids for the existence and delete
  calls, and the attachment routes.
- **Form validators** (`forms.dfy`). These are the WTForms checks the handlers' forms apply
  before anything is written.
- **Shared helpers** (`text.dfy`, `wrappers.dfy`, `rows.dfy`, `sorting.dfy`). These are the
  Python string operations on `seq<char>`, `Option`, row filters and a stable sort.

Modelling conventions:

- The handler contracts describe execution on PostgreSQL. The handlers call `cursor.execute`
  directly with `%s` placeholders and use `NOW()` and `INTERVAL` (app.py:667, 731, 1427, 3112),
  so on SQLite each of them raises at its first query. The PostgreSQL schema is not part of
  this model. The contracts assume that it has the constraints of the SQLite schema that
  `init_db` creates (models.py:93-347): the foreign keys without ON DELETE actions, the CHECK
  enumerations, UNIQUE and NOT NULL. The app.py:2176-2180 finding rests on that assumption.
- `Failed` is the answer of a handler whose statement raises. Where the handler has a
  `try`, it rolls back; where it has none, the request ends in an error page. Either way
  the tables stay as they were.
- The foreign keys have no ON DELETE action. The deletions of users and stages fail where
  a remaining row would still name what they remove.
- Tables are sequences or maps of row datatypes in one `Tables` record. A handler's
  transaction is one method call, and a refusal leaves the tables as they were.
- Times are integer seconds from 1970-01-01 00:00 UTC. `Day(t)` is `t / 86400`.
- Every call into Cloudinary, the local file system or a clock is a parameter: an outcome
  value, or a function the caller supplies.
- The Python truthiness of ids and texts is written out. `if last_id and ...` becomes
  `Some(v)` with `v != 0`.

## Model

| member | source | states |
|---|---|---|
| RoundRobin.PoolIds | app.py:419-427 | the pool holds exactly the ids of the users with the role |
| RoundRobin.PoolIdsOrdered | app.py:419 | a pool read with `ORDER BY id` from an id-ordered users table is strictly ascending and free of zero ids |
| RoundRobin.IndexOf | app.py:440 | `list.index`: a position holding the pointer, with no earlier one |
| RoundRobin.NextInRotation | app.py:439-444 | empty pool gives None; the pick is a pool member; a missing, zero or stale pointer gives the first id |
| RoundRobin.NextIsSuccessor | app.py:439-444 | after a live pointer the pick is the smallest id above it, or the smallest id of all when the pointer is the largest |
| RoundRobin.SuccessorIsLeastAbove | app.py:441-442 | in an ascending pool the next position holds the smallest id above the current one |
| RoundRobin.NothingAboveLast | app.py:441 | only the last position of an ascending pool has no larger id, so the wrap to index 0 happens exactly there |
| RoundRobin.Takes | app.py:439-451 | n consecutive calls, each storing its pick as the next pointer, give n picks (none for an empty pool) |
| RoundRobin.TakesAt | app.py:439-451 | the j-th of the consecutive picks is j places after the first, wrapping around |
| RoundRobin.RotationVisitsEachOnce | app.py:439-451 | from any pointer, as many calls as managers hand out every manager exactly once |
| RoundRobin.StartAfterPick | app.py:439-444 | once a pick is stored, the next call starts from the position after it |
| RoundRobin.AssignmentSettings.constructor | models.py:250 | an empty settings table |
| RoundRobin.AssignmentSettings.EnsureRow | models.py:345-347 | the singleton row is inserted all-NULL only when the table is empty |
| RoundRobin.AssignmentSettings.TakeNextManager | app.py:410-462 | the result is the rotation pick over the ordered managers; the manager pointer is set to it (inserting the row when missing); the BD pointer is untouched; nothing is written for an empty pool |
| RoundRobin.AssignmentSettings.PeekNextBd | app.py:464-499 | the suggestion is the rotation pick over the BD users; neither pointer moves; a missing row is inserted only when the pool is non-empty |
| RoundRobin.AssignmentSettings.CommitBd | app.py:501-520 | the BD pointer becomes the chosen BD user, inserting the row when missing; the manager pointer stays |
| RoundRobin.AssignmentSettings.ReplacePointer | app.py:2594-2597 | a pointer naming the deleted user passes to the replacement, the other pointer stays |
| Schema.ParseRole | models.py:109 | a stored role reads back exactly when the CHECK admits it, and reads back as the text stored |
| Schema.RoleNameRoundTrip | models.py:109 | every role the model writes passes the CHECK and reads back as itself |
| Schema.ParseStatus | models.py:138 | a stored lead status reads back exactly when the CHECK admits it, as the text stored |
| Schema.StatusNameRoundTrip | models.py:138 | every lead status the model writes passes the CHECK and reads back as itself |
| Schema.RevertedRefusedAsWritten | models.py:194 | the CHECK on `lead_assignments.status` refuses 'reverted' and admits every other status the handlers write |
| Schema.EveryAssignmentStatusAllowed | models.py:194 | with 'reverted' added to the CHECK every assignment status the handlers write is admitted |
| Schema.FindUser | models.py:427-444 | `User.get`: a found row has the id asked for; None only when no user has it |
| Store.EmptyTables | models.py:93-347 | the freshly created tables keep the key discipline of the AUTOINCREMENT tables |
| Store.SameKeysValid | models.py:93-347 | an update that adds no rows to the keyed tables keeps that key discipline |
| Store.Db.InitDb | models.py:93-347 | `init_db` on an empty database: empty tables and the singleton settings row with both pointers NULL |
| UserAdmin.CountRolePeer | app.py:2560-2564 | the count of the user's role is at least two exactly when another user holds that role |
| UserAdmin.DeleteGuardSpec | app.py:2539-2574 | with the corrected guard a deletion goes ahead iff an admin deletes someone else who exists, is not protected and is not the last of their role, and any replacement is another user of the same role |
| UserAdmin.UserIdsUnique | models.py:104-112 | ids in an id-ordered users table identify one user |
| UserAdmin.TransferSpec | app.py:2576-2593 | handing over to another user keeps every lead and every row; no rewritten column names the deleted user, and the only rows still naming them are the notes they wrote, the notifications sent to them and the stages they created |
| UserAdmin.CascadeSpec | app.py:2598-2624 | without a replacement the user's leads and the rows that name the user or hang off those leads are gone, other leads lose the user as manager or BD, nothing else is removed, and the only rows left naming a removed lead are the notes on it |
| UserAdmin.CommitSpec | app.py:2576-2639 | once the guard passes, the deletion commits iff the user wrote no note, created no pipeline stage (`created_by_id`, models.py:267-269), without a replacement no note is on one of their leads, and no rotation pointer still names them; otherwise the foreign keys (no ON DELETE action) make it roll back |
| UserAdmin.AuthorBlocksDelete | app.py:2628 | a user who wrote any note, as every submitter and every manager who accepted or rejected a lead has, or who created a pipeline stage, is never deleted |
| UserAdmin.FilterUsersOrdered | app.py:2626-2628 | removing the user keeps the users table id-ordered |
| UserAdmin.DeleteKeepsValid | app.py:2576-2628 | the deletion keeps the key discipline of the tables |
| UserAdmin.DeleteRemovesUser | app.py:2576-2639 | a committed deletion leaves the user gone, with no row and no rotation pointer naming them or one of the leads it removed, and the notes and stages as they were, none of them by the user |
| UserAdmin.SelfReplacementAsWritten | app.py:2568-2639 | as written, naming the deleted user as their own replacement passes the guard; the transfer changes nothing, their lead still names them, and the deletion rolls back with "Error deleting user" where the corrected guard answers 400 |
| UserAdmin.DeleteUser | app.py:2535-2643 | `delete_user`: the answer is the corrected guard's, then a failure exactly when a row or pointer the foreign keys protect still names the user or a removed lead; a refusal or failure changes nothing; a deletion leaves exactly the transferred or cascaded tables, and the rotation pointer naming the deleted user passes to the replacement |
| StageAdmin.MaxPosition | app.py:1181-1183 | `MAX(position)` is NULL exactly on an empty table, otherwise the largest position present |
| StageAdmin.NextPositionIsLast | app.py:1181-1183 | a new stage is numbered after every existing stage, and 1 in an empty pipeline |
| StageAdmin.NewStage | app.py:1169-1197 | `new_stage` with the INSERT naming `created_by_id`: non-admins are refused; a blank or over-100 name, a colour over 7 or a description over 500 characters is refused; a name already taken (UNIQUE) or an actor with no user row (the foreign key) fails with nothing stored; otherwise exactly one stage is appended with a fresh id at the next position, created by the actor, an empty colour stored as the default; distinct names stay distinct |
| StageAdmin.NewStageNeverCommitsAsWritten | app.py:1186-1189 | as written no stage is ever created: the INSERT leaves out the NOT NULL `created_by_id` (models.py:267), so every request the corrected handler commits fails, and every other answer is the same |
| StageAdmin.AppendKeepsNamesDistinct | models.py:262 | appending a stage whose name no stage has keeps the names distinct |
| StageAdmin.StageIndex | app.py:1203-1207 | the stage row with the given id, and None only when no stage has it |
| StageAdmin.RenameKeepsNamesDistinct | models.py:262 | replacing a stage by a row whose name no other stage has keeps the names distinct |
| StageAdmin.EditStage | app.py:1199-1237 | `edit_stage`: a missing stage is a 404 before the form is checked; a form failing the validators of `new_stage` is refused; a name another stage has fails the UNIQUE constraint with nothing stored; otherwise only the stage's name, colour and description change, its position and creator stay, and distinct names stay distinct |
| StageAdmin.DeleteStageSafe | app.py:1248-1257 | deleting a stage no lead sits on and no stage-history row names removes exactly that stage and keeps every lead's stage and both ends of every history row in the pipeline |
| StageAdmin.DeleteStageInHistoryDangles | app.py:1257 | removing a stage some stage-history row names leaves that row's reference dangling, which the foreign keys refuse |
| StageAdmin.DeleteStage | app.py:1239-1262 | `delete_stage`: refused while a lead sits on the stage; a failure with nothing deleted when a stage-history row names it (the DELETE raises under the foreign keys); otherwise the stage is removed and nothing else changes |
| StageAdmin.SetPosition | app.py:1283-1284 | one position update keeps every stage's id and name |
| StageAdmin.ReorderedPositions | app.py:1283-1284 | after the reorder a listed stage is at one more than the index of its last listing, and an unlisted stage keeps its position |
| StageAdmin.ReorderPermutation | app.py:1278-1284 | when the request lists every stage once, the stages are numbered 1..N in the order listed |
| StageAdmin.SetPositionKeepsFresh | app.py:1283-1284 | renumbering keeps stage ids distinct and fresh |
| StageAdmin.ReorderStages | app.py:1264-1289 | `reorder_stages`: a missing or empty list is a 400, otherwise only the positions change, as ReorderedPositions says |
| Services.Decimals | app.py:1373 | `[str(s) for s in ids]`: one decimal per id |
| Services.StrippedParts | app.py:1472 | one stripped part per comma-separated field |
| Services.ParseServices | app.py:1471-1482 | an empty column reads as no services; a column whose first stripped part is not all digits reads as those stripped parts, taken as names; otherwise every part must be an `int()` literal (a sign, digits and single underscores between them), read as its value, one id per field, and any other part raises |
| Services.DigitsAreIntLiteral | app.py:1473-1475 | a part of digits alone is an `int()` literal whose value is the number it spells |
| Services.IntReadsSigns | app.py:1475 | `int()` reads "-3" as -3 and "+3" as 3, which the `isdigit()` head test refuses |
| Services.IntReadsDigitGroups | app.py:1475 | `int()` reads "1_0" as 10 and refuses "1__0", "_1" and "1_" |
| Services.ParseNatToString | app.py:1475 | `int(str(n)) == n` |
| Services.CsvSplitsToDecimals | app.py:1373 | the stored text splits back into the decimals, each unchanged by strip |
| Services.ServicesRoundTrip | app.py:1373 | what the submit form writes, the lead view reads back as the same service ids |
| Services.ContainsAfterHead | app.py:916-917 | a `,tok,` occurrence after the head field is at the first comma or inside the rest |
| Services.EndsWithAfterHead | app.py:916-917 | a `,tok` suffix after the head field is the whole rest or a suffix of it |
| Services.StartsWithHead | app.py:916-917 | the prefix `tok,` matches exactly when the head field is the token |
| Services.CsvFilterIsMembership | app.py:916-917 | for a token without a comma or a LIKE wildcard ('%', '_') the four LIKE patterns of the service filter match exactly when the token is one of the comma-separated fields |
| Lifecycle.SubmitEffects | app.py:1372-1434 | a submission adds one 'Pending' lead under a fresh id and changes no other lead; an initial assignment due 15 hours on and one 'assignment' notification to the manager exist exactly when a manager was chosen |
| Lifecycle.SubmitLead | app.py:1291-1445 | `new_lead`: only marketers and managers submit; a form with a blank or over-long contact field, or with no service or one outside the `services` table, is refused with nothing written; a marketer's lead goes to the rotation's next manager and the pointer moves in the same transaction; a manager's lead goes to some other manager, if one exists, and the pointer stays |
| Lifecycle.MarkActed | app.py:1951-1955 | the update keeps the number of assignment rows |
| Lifecycle.MarkActedEffect | app.py:1951-1955 | after accepting, the acting manager holds no pending row for the lead; other rows are untouched; a changed row becomes 'acted' at that time and keeps lead, manager and deadline |
| Lifecycle.AcceptLead | app.py:1934-1974 | `accept_lead`: admins and managers only, any existing lead whatever its status; a refusal changes nothing |
| Lifecycle.RejectLead | app.py:2105-2145 | `reject_lead`: admins and managers only, any existing lead whatever its status (404 otherwise); then a comment that is all whitespace or not 10 to 1000 characters long is refused; a refusal changes nothing |
| Lifecycle.AcceptRejectIgnoreStatus | app.py:1949 | accept sets 'Accepted' and reject sets 'Rejected' from any status, and neither touches another lead |
| Lifecycle.RevertActed | app.py:2176-2180 | the update keeps the number of assignment rows |
| Lifecycle.RevertEffects | app.py:2173-2186 | a revert leaves the lead 'Rejected', not accepted and owned by the actor; no 'acted' row of the lead is left; exactly one non-initial pending row for the actor, due in 4 hours, is appended |
| Lifecycle.RevertLead | app.py:2147-2209 | the corrected `revert_lead`, with 'reverted' in the assignment CHECK (see RevertViolatesSchemaCheck): admins and managers only, only for an 'Accepted' lead (otherwise InvalidState), and then only with a comment that validates as for reject; a refusal changes nothing |
| Lifecycle.RevertViolatesSchemaCheck | app.py:2176-2180 | as written, the revert's UPDATE writes a status the `lead_assignments` CHECK refuses whenever the lead has an 'acted' row |
| Lifecycle.RevertRespectsExtendedCheck | app.py:2176-2180 | with 'reverted' in the CHECK the revert keeps every assignment row admitted |
| Lifecycle.ReviewerIds | app.py:2246 | the recipients are exactly the admins and managers |
| Lifecycle.Notices | app.py:2250-2254 | one 'info' notification per recipient, in order |
| Lifecycle.NotifyEach | app.py:2250-2254 | the notification loop appends one notice per recipient, in order, after the existing ones |
| Lifecycle.AppendedNoticesReach | app.py:2250-2254 | the appended notices reach exactly the listed recipients and the earlier ones stay in front |
| Lifecycle.ResubmitNotifiesReviewers | app.py:2239-2254 | a resubmission sets 'Resubmitted', and a user gets a new notice iff they are an admin or a manager |
| Lifecycle.ResubmitLead | app.py:2211-2265 | `resubmit_lead`: only the submitting marketer or manager, only for a 'Rejected' lead (otherwise InvalidState), and then only with a rectification comment that validates as for reject; a refusal changes nothing |
| Lifecycle.FirstStage | app.py:2029-2030 | the first stage is None exactly on an empty pipeline, otherwise a stage of least position |
| Lifecycle.AssignBdEffects | app.py:2037-2056 | the lead gets the BD user and the first stage, keeps its status, one BD-history row from the previous BD to the new one is logged, and a stage-history row exactly when the stage changed |
| Lifecycle.AssignBdKeepsValid | app.py:2037-2056 | BD assignment keeps the key discipline of the tables |
| Lifecycle.AssignBd | app.py:1976-2103 | `assign_bd_sales` with the peek leaving the handler's connection open: the refusal cases, a chosen id outside the BD users or a non-blank note over 500 characters being the form's refusal; the suggestion is the BD rotation's peek; on success the tables are as AssignBdEffects says and the BD pointer moves to the chosen user only when the BD changed; the manager pointer never moves |
| Lifecycle.AssignBdNeverCommitsAsWritten | app.py:2017-2025 | as written no BD assignment is ever committed: every request the corrected handler commits fails once the peek has closed the shared connection, a missing stage is never reported, and the earlier refusals are the same |
| Lifecycle.FindStage | app.py:3166-3171 | the stage with the given id, None only when no stage has it |
| Lifecycle.MoveStageEffects | app.py:3194-3232 | a move appends exactly one stage-history row from the old stage to the new one, and one silent notification to the assigned BD user exactly when someone else moved the lead |
| Lifecycle.MoveStage | app.py:3148-3253 | `update_lead_stage`: 400 for a missing or zero stage id, 404 for an unknown stage or lead, 403 for a BD user moving another's lead; no status check; a refusal changes nothing |
| Lifecycle.FindActivity | app.py:1821-1826 | the activity with this id on this lead, None only when there is none |
| Lifecycle.ToggleFlips | app.py:1831-1857 | toggling flips completion, touches nothing else, and toggling an open task twice reopens it |
| Lifecycle.ToggleTask | app.py:1787-1891 | `toggle_task_complete`: a missing lead is 404 before any role check; a BD user only on their own leads; an activity not on the lead is 404; success toggles exactly that activity |
| Edits.EditGuard | app.py:2910-2919 | admins and managers may edit any lead, a marketer only their own lead while it is 'Rejected' or 'Resubmitted' (someone else's is Forbidden, a lead in another status InvalidState), BD users never |
| Edits.Fields | app.py:2929-2946 | one compared value per compared column |
| Edits.FieldsInjective | app.py:2929-2946 | the compared columns determine the contact: equal field lists iff equal contacts |
| Edits.Diff | app.py:2929-2946 | the diff has at most one entry per compared column |
| Edits.DiffExact | app.py:2929-2946 | the diff has an entry for a column iff its old and new values differ, each entry carrying both values, and no other entry |
| Edits.DiffEmptyIffUnchanged | app.py:2929-2946 | `changes` from the contact columns is empty iff the submitted contact equals the stored one |
| Edits.DiffSame | app.py:2929-2946 | an unchanged form gives no contact changes |
| Edits.ContactChanges | app.py:2927-2946 | the step-by-step `changes.append` code builds exactly the diff |
| Edits.ExtraChanges | app.py:2948-2988 | the services and attachment entries only name those two fields; the edit fails iff the services changed and the old column's parts, headed by digits, are not all `int()` literals; a sent file always gives an attachment entry from the old path (or 'None') to what `upload_result.get('url')` returned, None for an upload error; without a file only the services are entered |
| Edits.CatalogIds | app.py:2921-2924 | the choices of the services field are the ids of the services table, one per row |
| Edits.FailedUploadClearsAttachment | app.py:2977-3044 | when `upload_file` returns its error dict, the change entry's new value and the stored `attachment_path` are both NULL |
| Edits.NamesOfMembers | app.py:2955-2963 | the names are exactly those of the catalogued services whose id is listed |
| Edits.NamesOfIgnoresOrder | app.py:2955 | only the set of listed ids matters: their order and repeats do not change the names |
| Edits.ChangeRows | app.py:2990-2994 | one `lead_edit_changes` row per change, carrying the lead, the editor and the change's values |
| Edits.ChangeRowsOfDiff | app.py:2929-2994 | the rows of the contact diff followed by entries for other fields hold a row for a contact column iff its old and new values differ |
| Edits.EditEffects | app.py:2990-3044 | after an edit the lead holds exactly the submitted contact, keeps status, submitter and manager, and one change row exists per changed contact column |
| Edits.AppendChangeRows | app.py:2990-2994 | the insert loop appends one row per change, in order, after the existing rows |
| Edits.EditLead | app.py:2895-3077 | `edit_lead` on a POST: a missing lead or a guard refusal changes nothing; a submission `LeadEditForm` refuses (a blank or over-long field, no service or one outside the catalogue, a summary that is blank or not 10 to 500 characters) is a BadRequest that writes nothing; an old services column that cannot be read back fails with nothing written; otherwise the tables are as EditEffects describes with the services and attachment entries after the contact ones, the services named once each in the catalogue's order |
| Sweeps.OverdueRows | app.py:627-638 | the joined rows are exactly the pending, past-deadline assignments of leads still 'Pending' or 'Resubmitted' |
| Sweeps.SelectOverdueSpec | app.py:627-640 | the batch holds only overdue rows, earliest deadline first, as many as exist up to ten, and no overdue row left out is due before the last one taken |
| Sweeps.OtherManagers | app.py:649-650 | what the per-lead query means to return: every manager except the incumbent |
| Sweeps.ReplacementIsOtherManager | app.py:656-658 | the replacement is a manager other than the incumbent; when the rotation picks the incumbent the lowest other manager is used instead |
| Sweeps.Reassigned | app.py:665-703 | handing one lead over keeps the users, the lead ids and the key discipline |
| Sweeps.StepTaken | app.py:649-703 | with another manager available, a step moves the rotation pointer to its pick and hands the lead to the replacement |
| Sweeps.StepSkipped | app.py:652-654 | with no other manager the lead is skipped and nothing changes |
| Sweeps.SweepStepEffects | app.py:642-705 | one lead of the sweep: skipped without another manager, otherwise one new pending row for another manager, the lead moved, the history row, an 'assignment' notice to the new manager, a 'warning' to the old one, and the pointer advanced |
| Sweeps.StepKeepsOverdue | app.py:660-669 | the superseded row is never closed: an overdue row stays pending and overdue after a step |
| Sweeps.SweepNotIdempotent | app.py:627-705 | a second run at the same time finds a non-empty batch again whenever the first one did |
| Sweeps.SweepRows | app.py:642-707 | the sweep loop leaves exactly the folded state of its batch, the pointer carried from lead to lead, the BD pointer untouched |
| Sweeps.ReassignOverdueLeads | app.py:603-717 | the overdue sweep with the per-lead query bound as intended: the batch is the selected one and the tables are its fold |
| Sweeps.OtherManagersQuery | app.py:649 | the query with two placeholders runs only with a text and an integer parameter; any other parameter list raises |
| Sweeps.OverdueSweepAsWrittenDoesNothing | app.py:649 | as written the query is given one parameter, always raises, and the sweep rolls back without reassigning anything |
| Sweeps.OtherManagersQueryCorrected | app.py:649 | bound with the role and the incumbent, the query returns exactly the other managers in id order |
| Sweeps.DueRows | app.py:744-756 | the joined rows are exactly the open activities whose reminder time has passed, with their lead's company |
| Sweeps.SelectDueSpec | app.py:744-758 | the batch holds only due open activities, earliest reminder first, as many as exist up to twenty, and no due activity left out has an earlier reminder than the last one taken |
| Sweeps.ReminderMessage | app.py:769-772 | in the corrected sweep, every reminder starts with "Reminder: " and ends with the activity's tag, the text the duplicate test looks for; a due date is shown as its `YYYY-MM-DD` date |
| Sweeps.CivilFromDays | app.py:770 | the calendar date the corrected reminder shows for a due time: a month in 1..12 and a day in 1..31 that count back to exactly that day |
| Sweeps.IsoDateOfEpoch | app.py:770 | the date text of time 0 is 1970-01-01 |
| Sweeps.DueDateBlocksRemindersAsWritten | app.py:769-770 | as written, a batch holding an activity with a due date writes nothing, so that activity stays unreminded where the corrected sweep reminds it, and the unchanged tables give a rerun the same batch |
| Sweeps.NoDueDateAsWrittenAgrees | app.py:760-805 | without due dates in the batch, the sweep as written and the corrected sweep leave the same tables |
| Sweeps.ReminderFold | app.py:760-797 | the corrected reminder sweep changes only the notifications table, and only by appending |
| Sweeps.FoldReminds | app.py:774-792 | after the corrected sweep every activity of the batch has its reminder for today |
| Sweeps.FoldRemindedIsIdentity | app.py:784-786 | when every activity is already reminded today the sweep writes nothing |
| Sweeps.ReminderSweepIdempotent | app.py:719-807 | in the corrected sweep, at most one reminder per activity, actor and day: a second run on the same day writes nothing more |
| Sweeps.RemindRows | app.py:760-797 | the corrected reminder loop leaves exactly the folded tables of its batch |
| Sweeps.SendActivityReminders | app.py:719-807 | the corrected reminder job: the batch is the selected one and the tables are its fold |
| Targets.OverlapIsIntersection | app.py:583-591 | for well-formed periods the three date clauses hold exactly when the two periods share a day |
| Targets.OverlapNeedsWellFormed | app.py:583-591 | the clauses report an overlap for an ill-formed stored period that shares no day with the new one |
| Targets.HasPeriodOverlap | app.py:578-601 | true iff some target of the same assignee, other than the excluded one, meets the overlap clauses |
| Targets.FindTarget | app.py:3341-3342 | the target with the given id, None only when no target has it |
| Targets.RemoveSpec | app.py:3410 | deleting a target removes exactly the rows with that id |
| Targets.NoOverlapApart | app.py:3313-3316 | when the overlap check passes, the new period shares no day with any of the assignee's other periods |
| Targets.AppendKeepsDisjoint | app.py:3318-3323 | a fresh row apart from the assignee's other periods keeps every assignee's periods pairwise disjoint |
| Targets.UpdateKeepsDisjoint | app.py:3373-3378 | rewriting a row with a period apart from the assignee's other rows keeps the periods disjoint |
| Targets.RemoveKeepsDisjoint | app.py:3410 | deleting rows keeps the periods disjoint |
| Targets.TargetBoard.constructor | models.py:221-237 | an empty targets table |
| Targets.TargetBoard.NewTarget | app.py:3295-3332 | `new_target` with the overlap check leaving the connection open: admins and managers only, a bad form or an end not after the start is refused, an overlapping period is refused, otherwise one row is appended under a fresh id, with the chosen target type; the periods stay disjoint |
| Targets.TargetBoard.EditTarget | app.py:3334-3393 | `edit_target` with the overlap check leaving the connection open: 404 for a missing target, refused for a manager who did not set it, the target's own row left out of the overlap check, otherwise only that row's assignee, count, period and target type change |
| Targets.TargetWritesFailAsWritten | app.py:3313-3378 | as written neither handler ever writes a target: every request the corrected handler commits fails once the overlap check has closed the shared connection, and every refusal is the same |
| Targets.TargetBoard.DeleteTarget | app.py:3395-3415 | `delete_target`: 404 for a missing target, refused for a manager who did not set it, otherwise exactly that row is removed |
| Timeline.NoteAcceptedIff | app.py:264-275 | a note shows as "Lead Accepted" iff it is a system note whose text contains "accepted" in any case; other note types keep their own title |
| Timeline.AcceptNoteShownAccepted | app.py:1957-1960 | the note the accept handler writes is shown on the timeline as an acceptance |
| Timeline.LeadNotes | app.py:237-243 | the note rows are exactly the lead's notes whose author exists (the inner join) |
| Timeline.LeadBdHistory | app.py:287-295 | the BD-history rows are exactly the lead's rows whose assigner and new BD exist |
| Timeline.LeadStageHistory | app.py:320-330 | the stage-history rows are exactly the lead's rows whose changer and target stage exist |
| Timeline.LeadActivities | app.py:354-360 | the activity rows are exactly the lead's activities whose actor exists |
| Timeline.UnsortedLayout | app.py:218-404 | the submission comes first, then one entry per note, BD row, stage change and activity |
| Timeline.TimelineHasNotes | app.py:218-408 | the submission and every note of the lead by an existing author appear in the timeline |
| Timeline.TimelineSpec | app.py:218-408 | the timeline is newest first and a permutation of one entry per source row |
| Timeline.AppendNotes | app.py:245-285 | the note loop appends one entry per note, in order |
| Timeline.AppendBdHistory | app.py:297-318 | the BD-history loop appends one entry per row, in order |
| Timeline.AppendStageChanges | app.py:332-352 | the stage-change loop appends one entry per row, in order |
| Timeline.AppendActivities | app.py:362-404 | the activity loop appends one entry per row, in order |
| Timeline.BuildTimeline | app.py:218-408 | `build_unified_timeline` returns the sorted unsorted entries, as TimelineSpec describes |
| Pagination.TotalPagesIsCeiling | app.py:1009 | the page count is the ceiling of total / 50: the pages hold every row, the last page is not empty, and no rows means no pages |
| Pagination.OffsetNonNegative | app.py:1003 | the offset is non-negative exactly for pages from 1 on |
| Pagination.PageRows | app.py:1001-1003 | on PostgreSQL a page from 1 on returns at most 50 rows, and a page below 1 gives a negative OFFSET, which PostgreSQL refuses |
| Pagination.PagesUpToIsPrefix | app.py:1001-1009 | pages 1..k read in turn are the first 50·k rows |
| Pagination.PagesCoverRows | app.py:1001-1009 | reading pages 1 to the page count shows every row once, in order |
| Pagination.EachRowOnOnePage | app.py:1001-1009 | every row is on exactly one page, and that page exists |
| DashboardQuery.RewriteAsWrittenKeepsList | app.py:1006 | as written the count rewrite looks for a one-line select list the query never holds, so the count query is the row query without its ORDER BY, select list unchanged |
| DashboardQuery.CountAsWrittenLacksTotal | app.py:1006-1008 | so the count query as written never selects `COUNT(*) as total`, and reading `['total']` from its row fails |
| DashboardQuery.RewriteReplacesList | app.py:1006 | matching the select list as the query spells it, the rewrite puts the given list in its place and keeps the joins, the role's WHERE and the filters; the count query then starts with `SELECT COUNT(*) as total` |
| DashboardQuery.StatusRewrites | app.py:1012-1013 | as written the status query is the row query with `GROUP BY l.status` appended; corrected it selects status and count over the same joins, role WHERE and filters |
| Retry.BackoffTotal | app.py:45 | n waits of the doubling schedule add up to initial·(2^n − 1) |
| Retry.DefaultWaitBound | app.py:35 | with the defaults the operation waits at most 1.5 s in all before giving up |
| Retry.RetryOnDbLock | app.py:35-51 | at most `max_retries` calls, each earlier one a lock error; a lock error on the last try is raised; with `max_retries <= 0` one call outright; the waits double |
| Retry.SafeCommitAsWritten | app.py:91-109 | commits or raises the last error within `max_retries` tries, every earlier try a lock error; with no tries it gives up; under Postgres one rollback per retry, and a commit after a retry there has lost the transaction's writes |
| Retry.DeadlockRetryAsWritten | app.py:104-106 | under Postgres a deadlock on the first COMMIT and a clean second one: the answer is success, with the writes rolled back |
| Retry.SafeCommit | app.py:91-109 | `safe_commit` retrying only on SQLite, where a failed COMMIT leaves the transaction open: commits or raises the last error within `max_retries` tries, every earlier try a lock error; under Postgres one try, no wait and no rollback |
| Downloads.DownloadExternal | app.py:2880-2884 | a missing or empty `url` is a 400; a URL whose network location holds one of '[' and ']' without the other is a 500, because `urlparse` raises; anything else is a redirect |
| Downloads.DownloadInsertsFlag | app.py:2887-2891 | for a URL that parses and names a Cloudinary host, the flag goes in right after the first `/upload/` and nothing else changes |
| Downloads.DownloadRedirectsAnywhere | app.py:2892-2893 | any other non-empty URL that parses is redirected to unchanged: the host test is no guard against open redirects |
| Downloads.UploadAfterNetloc | app.py:2885-2890 | on a Cloudinary host every `/upload/` of the text `urlparse` reads lies after the network location |
| Downloads.InsertAfterNetloc | app.py:2890 | text put into the path or query of split text leaves the network location as it was |
| Downloads.FlagLandsInPath | app.py:2887-2891 | the flag put after an `/upload/` of the raw URL lands, in the text `urlparse` reads, past the network location |
| Downloads.FlagKeepsHost | app.py:2890-2891 | putting the flag after an `/upload/` of a Cloudinary URL keeps the host `urlparse` reads, tabs, CRs, LFs and leading blanks included |
| Downloads.RewriteKeepsHost | app.py:2890-2891 | the rewritten URL names the host `urlparse` reads from the URL it was made from |
| Downloads.DownloadKeepsHost | app.py:2884-2893 | the answer is a 500 exactly when `urlparse` raises, and otherwise the redirect names the host the URL named, as `urlparse` reads both |
| Urls.SplitScheme | app.py:2884 | the scheme, when there is one, and the rest reassemble the text |
| Urls.SplitPath | routes/attachments.py:13-14 | the path ends at the first '?' or '#', and path and tail reassemble the text |
| Urls.SplitNetloc | app.py:2885 | the network location follows '//' and runs up to the next '/', '?' or '#' |
| Urls.LStripC0 | app.py:2884 | `urlsplit` first strips leading C0 controls and spaces: what is left starts with neither |
| Urls.LStripC0Suffix | app.py:2884 | the strip removes a run of blanks from the front and keeps the rest of the text |
| Urls.RemoveUnsafe | app.py:2884 | `urlsplit` then deletes every tab, CR and LF: none is left |
| Urls.RemoveUnsafeKeeps | app.py:2884 | the deletion keeps every other character |
| Urls.RemoveUnsafeOfSafe | app.py:2884 | text without tab, CR or LF is left as it is |
| Urls.RemoveUnsafeConcat | app.py:2884 | the deletion works piece by piece |
| Urls.SanitizeIsClean | app.py:2884 | the cleaned URL needs no further cleaning |
| Urls.CleanUnchanged | app.py:2884 | cleaning is the identity on clean text, so it is idempotent |
| Urls.SanitizeConcat | app.py:2884 | after a part that holds a non-blank character, the rest is only cleaned of tabs, CRs and LFs |
| Urls.LeadingBlanksIgnored | app.py:2884 | leading C0 controls and spaces do not change what `urlsplit` reads |
| Urls.SanitizeInsert | app.py:2890 | clean text put after a non-blank prefix of a URL lands, in the cleaned URL, at the end of the cleaned prefix |
| Urls.OccurrenceSanitized | app.py:2887-2890 | an occurrence of a clean pattern in the raw URL ends a non-blank prefix, and the pattern occurs in the cleaned URL where that prefix's cleaned text ends |
| Urls.SplitClean | app.py:2884 | the split of cleaned text: the parts reassemble the text and are parts the split can produce |
| Urls.SplitUrl | app.py:2884 | `urlsplit`: the parts reassemble the cleaned URL, which needs no further cleaning, and are parts the split can produce |
| Urls.StripParams | routes/attachments.py:13-14 | `urlparse` cuts the path at its first ';' after the last '/', or at its first ';' when it has no '/': what is left is a prefix with no such ';' |
| Urls.SplitUnsplit | app.py:2884 | splitting reassembled parts gives the parts back |
| Urls.UrlSplitUnsplit | app.py:2884 | `urlsplit` of reassembled parts that need no cleaning gives the parts back |
| Urls.SplitHttpsUrl | routes/attachments.py:13-14 | for an `https://host/path` URL the network location is the host without its tabs, CRs and LFs, and the path is the path without them and without its `;params` |
| Urls.TabInHostRemoved | app.py:2884-2887 | a tab inside the host is removed before the host is read: `https://a<tab>b/…` names the host `ab` |
| Urls.HttpsUrlRaises | app.py:2884 | `urlparse` of an `https://host/path` URL raises exactly when the host holds one of '[' and ']' without the other |
| Storage.AfterMarker | storage_helper.py:205-210 | `split('/upload/')[1]` never holds the marker: the remainder stops at a second `/upload/` |
| Storage.ParseCloudinaryUrl | storage_helper.py:196-220 | a URL without `/upload/` parses as itself with type 'raw' and no extension; otherwise the type is the segment before the marker |
| Storage.ResourceTypeIsLastSegment | storage_helper.py:209 | the resource type is the last '/'-free segment before the marker, trailing slashes ignored |
| Storage.DropVersionSpec | storage_helper.py:211-212 | a first segment starting with 'v' and followed by '/' is dropped, otherwise the remainder is kept |
| Storage.DropVersionTakesAnyV | storage_helper.py:211-212 | any first segment starting with 'v' is taken for a version, so a folder named like 'videos' is dropped from the public id |
| Storage.ExtensionSplit | storage_helper.py:213-217 | no extension iff the remainder has no '.'; otherwise id + "." + extension rebuilds the remainder, the extension holds no '.' and is lowered |
| Storage.ExtensionRoundTrip | storage_helper.py:196-220 | for a URL with `/upload/` the parsed id and extension rebuild the text after the marker and version |
| Storage.GetMimeType | storage_helper.py:268-286 | the answer is one of the table's types or `application/octet-stream` |
| Storage.MimeOfExtension | storage_helper.py:270-286 | a name ending in `.e` gets the table's entry for the lowered `e`, or the default for an unknown extension |
| Storage.MimeWithoutDot | storage_helper.py:270 | a name without '.' gets the default type |
| Storage.MimeIgnoresCase | storage_helper.py:270 | the lookup does not depend on the case of the name |
| Storage.ExtensionsAgree | storage_helper.py:58 | the upload's `rsplit('.', 1)[-1]` and the MIME lookup's `split('.')[-1]` pick the same extension |
| Storage.UploadResourceType | storage_helper.py:58-60 | an upload is an 'image' iff its lowered extension is one of the six image extensions, otherwise 'raw' |
| Storage.ImageEntries | storage_helper.py:271-285 | each image extension has an `image/…` entry in the MIME table, and no other extension does |
| Storage.ImageUploadIffImageMime | storage_helper.py:58-60 | a file is uploaded as an 'image' iff its MIME type starts with `image/` |
| Storage.OrElse | storage_helper.py:71 | Python `a or b`: the first value when it is a non-empty text, the second otherwise |
| Storage.UploadFile | storage_helper.py:44-82 | without Cloudinary the fixed not-configured error and nothing stored elsewhere; a raised SDK call is an error carrying its message; success gives the id `folder/filename`, the type of its name and the secure URL when there is one |
| Storage.RecordIds | storage_helper.py:110-114 | the candidates of a record hold its id and are never empty |
| Storage.UrlIds | storage_helper.py:126-129 | the candidates of a parsed URL hold the bare id and are never empty |
| Storage.RecordIdsAreStems | storage_helper.py:110-114 | every candidate of a record is its id or that id cut before its last extension |
| Storage.RecordCandidates | storage_helper.py:110-114 | the list built by `insert(0, …)` and `append` is exactly the record's candidates |
| Storage.UrlCandidates | storage_helper.py:126-129 | the list built in place is exactly the URL's candidates |
| Storage.FirstAccepted | storage_helper.py:115-121 | the loop stops at the first candidate whose call returns, and finds none iff every call raises |
| Storage.FileExists | storage_helper.py:101-142 | a record exists iff Cloudinary answers for one of its candidates (never without Cloudinary); a Cloudinary URL iff one of its parsed candidates answers; anything else is the local test |
| Storage.DeleteFile | storage_helper.py:145-193 | with Cloudinary a record or URL is deleted iff one candidate's destroy returns; without it a record deletes the local name '' and a name deletes itself locally |
| Attachments.PathParts | routes/attachments.py:14 | the split path has at least one part |
| Attachments.IndexFrom | routes/attachments.py:16-17 | `list.index(x, start)`: the first position at or after `start` that holds `x`, None iff there is none |
| Attachments.PublicIdNoneIff | routes/attachments.py:15-19 | no public id iff the path has no 'raw' part or no 'upload' part at or after the first 'raw' |
| Attachments.StripExtensionRoundTrip | routes/attachments.py:24 | the id without its last extension, plus "." and that extension, rebuilds the text; a text without '.' is kept |
| Attachments.PublicIdShape | routes/attachments.py:20-25 | a found id is the path after an 'upload' part (and a version) with the last extension cut off |
| Attachments.VersionSkipped | routes/attachments.py:21-22 | any part after 'upload' that starts with 'v' is skipped as a version |
| Attachments.DownloadAttachment | routes/attachments.py:27-43 | a missing lead or attachment is a 404; a stored URL that `urlparse` rejects is a 500; a URL not on `res.cloudinary.com` is redirected to as it is |
| Attachments.DownloadTarget | routes/attachments.py:33-43 | a stored URL that does not parse is a 500; a Cloudinary URL with a public id is redirected to the generated public URL, and to itself when no id is found or generation raises |
| Attachments.Status | routes/attachments.py:49-82 | the refusals before the SDK calls answer 400, an untrusted account 403, any other conversion failure 500 |
| Attachments.FailureMessageKeepsError | routes/attachments.py:82 | the 500 message is the fixed prefix followed by the SDK error unchanged |
| Attachments.Failure | routes/attachments.py:76-82 | a failure is an untrusted account or a conversion failure carrying the error |
| Attachments.Publish | routes/attachments.py:60-82 | once the id is found the answer is never a 400: the converted URL, else a non-empty re-upload URL, else 403 when the lowered error mentions 'untrusted', else 500 |
| Attachments.MakePublicFor | routes/attachments.py:51-82 | a URL that `urlparse` rejects fails; a non-Cloudinary host and a missing or empty id are refused with their own reasons, and success needs a parsed URL, the host and the id |
| Attachments.MakePublic | routes/attachments.py:45-82 | a missing lead is a 404; a lead without an attachment is the 'No attachment' refusal; an attachment URL that does not parse fails |
| Attachments.CustomerMarkHoldsMark | routes/attachments.py:77 | the text `show_original_customer_untrusted` contains `untrusted` |
| Attachments.UntrustedIsOneTest | routes/attachments.py:77 | the two tests joined by `or` amount to the first one alone |
| Attachments.MadePublicNeedsId | routes/attachments.py:45-82 | a lead is made public only when it has an attachment URL that parses, is hosted on Cloudinary and yields a non-empty public id |
| SqlQuery.NoFormatMarkLeft | models.py:88-89 | after the rewrite no `%s` is left in the statement |
| SqlQuery.ToQMarksCount | models.py:88-89 | the rewrite yields one '?' per `%s` of the original, besides the '?' already there |
| SqlQuery.ToQMarksIdentity | models.py:88 | without a `%s` the rewrite changes nothing |
| SqlQuery.PreparedSql | models.py:84-91 | on Postgres or without parameters the statement is passed as written; on SQLite with parameters no `%s` is left |
| SqlQuery.ExecuteQuery | models.py:84-91 | without parameters `execute(sql)` on the text as written; with them `execute(sql, params)` on the prepared text and the same parameters |
| SqlQuery.PreparedPlaceholders | models.py:84-91 | on SQLite with parameters the statement is the rewrite: no `%s`, and one more '?' for each `%s` |
| Profiles.AvatarUrlOf | models.py:551-566 | no row or an empty avatar gives the default; a stored `http…` avatar is shown as it is; any other is put below `/uploads/profile/` |
| Profiles.BioOf | models.py:568-577 | the stored bio, or '' for a missing row or a NULL bio |
| Profiles.AvatarUrlShowsStoredAvatar | models.py:551-566 | a stored avatar is always shown, ending in the stored value, and never replaced by the default |
| Profiles.ProfileTable.constructor | models.py:239-247 | an empty profiles table |
| Profiles.ProfileTable.UpdateProfile | models.py:519-549 | a user without a profile gets one with the values given; otherwise only the fields given are written, with the timestamp, and nothing when none is given; other users' profiles stay; the new bio and avatar read back |
| Text.JoinSplit | storage_helper.py:112 | `c.join(s.split(c)) == s` for any text and separator |
| Text.SplitJoin | app.py:1373 | splitting a join of separator-free parts gives the parts back |
| Text.SplitPartsLackSeparator | storage_helper.py:112 | no part of `s.split(c)` holds the separator |
| Text.StemBeforeLastIndex | storage_helper.py:112 | `'.'.join(s.split('.')[:-1])` is the text before its last '.' |
| Text.NatToString | app.py:1373 | `str(n)` is all digits, one digit exactly below 10 |
| Text.NatToStringInjective | app.py:1373 | distinct ids print differently |
| Text.StripEmptyIffAllSpace | forms.py:32 | `s.strip()` is empty exactly when every character is whitespace |
| Forms.RequiredMeans | forms.py:12-21 | `DataRequired()` passes exactly when the field holds a character `strip()` does not remove |
| Forms.CommentValidMeans | forms.py:31-35 | a rejection or rectification comment passes exactly when it is 10 to 1000 characters long and not all whitespace |
| Forms.SummaryValidMeans | forms.py:99 | the change summary passes exactly when it is 10 to 500 characters long and not all whitespace |
| Forms.EditFormValidMeans | forms.py:80-99 | a `LeadEditForm` that validates has a services choice, every choice in the catalogue, a summary of 10 to 500 characters that is not blank, and a full name that is not blank |
| Forms.NoteValidMeans | forms.py:111 | the assignment note passes exactly when it is all whitespace (the empty note included) or at most 500 characters long |

## Left out

- Socket.IO pushes, flash messages, templates, redirects to pages and login. Only the persisted rows and the answer of each handler are modelled.
- The scheduler that runs the sweeps, and `time.sleep` in the retry loops. A sweep is one call taking `now`, and the waits are integer milliseconds returned as a list.
- Connections, cursors, the SQLite/PostgreSQL switch (except where `execute_query` branches on it and where `safe_commit` rolls back), and raw SQL text (except the dashboard's count queries). Foreign keys are modelled for the deletions of users and stages and for the creator of a new stage. The model does not check them on the other handlers' writes.
- Timezone conversion and formatting, floating-point figures (target percentages, deal amounts, conversion rates), CSV export and analytics queries.
- The Cloudinary SDK and local file I/O. Each call is a parameter: an outcome value, or a function from id to result.
- The social-profile rows of submit and edit. In `edit_lead` the social-profile entries are appended to `changes` after the change rows are inserted and after the note text is built (app.py:2996-2997), and `changes` is not read again. So they reach neither `lead_edit_changes` nor the note.
- `UserProfile.get_or_create` and `delete_avatar` (models.py:493-508, 579-598) are outside the modelled core.
- `download_file` (storage_helper.py:85-97) is not modelled. It only chooses between returning nothing and a local read.
- Lifecycle.SubmitLead: a manager-submitted lead goes to a manager drawn by `ORDER BY RANDOM()`. The model takes any manager other than the submitter, so the contract states membership, not which one.
- Lifecycle.SubmitLead: of `LeadForm`, the model checks `DataRequired` and `Length` on the text fields and the services choices. The `Email()` check, the industry choices of `INDUSTRIES`, `FileAllowed` on the attachment and the optional social URL fields are not modelled. The services offered are a parameter, the ids of the `services` table.
- Services.ParseServices: `isdigit()` and `int()` are read on ASCII. Unicode decimal digits (which both accept, `int()` reading them as their values) and characters such as '²' (which `isdigit()` accepts and `int()` refuses) are treated as non-digits. Whitespace around a sign, which `int()` also strips, cannot occur because the parts are already stripped.
- Edits.EditLead: of `LeadEditForm`, the model checks `DataRequired` and `Length` on the text fields and the summary, and the services choices. As for submit, the `Email()` check, the industry choices, `FileAllowed` on the attachment and the optional social URL fields are not modelled, and neither is the CSRF token of `validate_on_submit`. The GET branch, which fills the form from the stored lead, is not modelled.
- Lifecycle.SubmitEffects: the submission and assignment notes and the notification text are not stated beyond their kinds and recipients.
- Sweeps.ReassignOverdueLeads: inside the sweep, `get_next_manager_for_assignment` gets the sweep's own shared connection from `get_db`. It commits the sweep's open transaction, pointer update included, and then closes that connection, so the sweep's next INSERT would fail even with the query of app.py:649 corrected. The model advances the pointer inside the same transaction, as if the allocator reused the connection without closing it.
- Sweeps.SweepStepEffects: the history insert at app.py:673-678 names columns (`assignment_id`, `old_manager_id`, `new_manager_id`, `reassignment_reason`) that the `lead_assignment_history` table of models.py:205-216 does not have; the model appends a history row with the intended contents.
- Sweeps.ReminderMessage: the title and due-date text of the reminder are not stated in the contract. Only the fixed prefix and the `[Activity #id]` tag are stated, and these are what the duplicate test reads. The due date is printed from the stored time, as UTC, which is how the activity handler stores it.
- Sweeps.FoldReminds: this and the other reminder members (ReminderFold, RemindRows, SendActivityReminders, ReminderSweepIdempotent) describe the corrected sweep, which prints the due date. As written, the sweep writes nothing for a batch that holds an activity with a due date (see the app.py:770 finding and DueDateBlocksRemindersAsWritten).
- Urls.SplitUrl: the scheme is kept as written rather than lowered, so that the parts reassemble the cleaned URL; only the `uses_params` test lowers it. The strip of leading C0 controls and spaces is that of Python 3.12, backported to the 3.7 to 3.11 security releases of 2023; earlier releases do not strip. Neither changes the network location or path of a URL that reaches these routes with a lower-case scheme.
- Downloads.DownloadExternal: the host test reads the network location of the cleaned URL, while the rewrite works on the raw text. So `https://evil.cloudinary<tab>.com/upload/x` (a tab decoded from `%09`) counts as a Cloudinary host, and a URL with leading spaces is rewritten and redirected with them. DownloadKeepsHost states that the host read from the redirect is the host read from the request.
- Urls.ParseRaises: only the `ValueError` for a network location with one of '[' and ']' without the other is modelled. The further checks that newer Python versions make of a bracketed host (that it is a valid IPv6 or IPvFuture address) are not, nor the `ValueError` that `urlsplit` raises when NFKC normalisation of a non-ASCII network location produces one of '/', '?', '#', '@' or ':'.
- Downloads.DownloadExternal: the host test `'cloudinary.com' in netloc` is a substring test. Any host containing that text counts, and any other URL is redirected to unchanged (an open redirect; see DownloadRedirectsAnywhere).
- Services.CsvFilterIsMembership: a token holding '%' or '_' widens the LIKE match beyond membership, and SQLite's LIKE ignores ASCII case; the lemma is stated for tokens without wildcards, compared exactly.
- Edits.NamesOfMembers: `WHERE id IN (…)` without ORDER BY returns the rows in an order the database chooses. The model takes the catalogue's row order.
- DashboardQuery.CountAsWrittenLacksTotal: the model stops at the query text. The exception that reading `['total']` then raises (a `KeyError` or `IndexError` for the missing column, or a `TypeError` when no lead matches) is not modelled beyond it.
- Storage.AfterMarker: `split('/upload/')[1]` stops at a second `/upload/`. A public id that itself holds `/upload/` is truncated. This is modelled as written.
- Storage.DropVersionTakesAnyV: any first segment starting with 'v' is dropped as a version, in storage_helper.py and in routes/attachments.py alike (see Attachments.VersionSkipped). This is modelled as written.
- Storage.ParseCloudinaryUrl: its `except` branch is unreachable, because no step of the parse can raise.
- Text.Lower: lowers ASCII letters only, where Python's `str.lower` lowers every cased letter. The extension that Storage.ParseCloudinaryUrl lowers therefore keeps a non-ASCII capital that Python would lower. Schemes are ASCII, so the `uses_params` test is not affected.
- Storage.FileExists: a dict without `public_id` would raise a `TypeError` in `'.' in public_id`. The model's record always carries a text id. "Cloudinary" in the URL case means `STORAGE_BACKEND == 'cloudinary'` together with `IS_CLOUDINARY`, as in the source.
- Attachments.MakePublic: the blueprint in routes/attachments.py imports `lms.models.Lead`, which this repository does not define. It is registered only by `create_app` in the package's __init__.py:16, and app.py does not use that factory. The lead is modelled as a record with an optional attachment URL. The SDK calls are outcome values, so their order is modelled only by which outcome is consulted.
- Attachments.DownloadAttachment: the same; the public-URL generator is a function that may fail.
- UserAdmin.DeleteUser: `lead_social_profiles`, `lead_targets` and `user_profiles` rows are not in the model's tables, so their transfer and deletion are not stated.
- Timeline.TimelineSpec: the display texts, icons and colours of the entries are not stated, except the acceptance classification of notes.

## Findings

| source | as written | input that shows it | evidently intended | confidence | as-written member | corrected member |
|---|---|---|---|---|---|---|
| app.py:649 | the query `role = %s AND id != %s` is given the single parameter `(old_manager_id,)`, so it raises; the whole sweep rolls back and no overdue lead is ever reassigned | any overdue pending assignment, e.g. one manager's lead past its 15-hour deadline with a second manager present | bind `('manager', old_manager_id)` and hand the lead to another manager; the allocator it calls must then also reuse the sweep's connection instead of committing and closing it | high (not executed) | Sweeps.OverdueSweepAsWrittenDoesNothing | Sweeps.OtherManagersQueryCorrected |
| app.py:770 | under PostgreSQL `due_at` is a TIMESTAMP column (models.py:300), returned as a `datetime`; `activity["due_at"][:10]` raises `TypeError` while the message is built, and the `except` at app.py:803-805 rolls back every reminder of the run | one open activity whose reminder time has passed and whose due date is set; no reminder is written on this run, nor on later runs while it stays in the batch | print the date part of the due time, `YYYY-MM-DD` | high (not executed) | Sweeps.DueDateBlocksRemindersAsWritten | Sweeps.FoldReminds |
| app.py:2176-2180 | the revert writes `status = 'reverted'`, which the CHECK on `lead_assignments.status` (models.py:194) refuses, so reverting a lead its manager accepted fails | a lead accepted through `accept_lead` (one 'acted' row), then reverted | the status enumeration includes 'reverted' | high (not executed) | Lifecycle.RevertViolatesSchemaCheck | Lifecycle.RevertRespectsExtendedCheck |
| app.py:2568-2574 | the replacement check only compares roles, so the user being deleted passes as their own replacement; the transfer then changes nothing, their leads still name them, and the `DELETE FROM users` fails under the foreign keys, so the request rolls back with "Error deleting user" | `delete_user(5)` with `replacement_user_id=5`, user 5 a manager who submitted a lead, with a second manager present | refuse a replacement equal to the deleted user with a 400 | medium (not executed) | UserAdmin.SelfReplacementAsWritten | UserAdmin.DeleteGuardSpec |
| app.py:1186-1189 | the INSERT of `new_stage` leaves out `created_by_id`, which is NOT NULL without a default (models.py:267); the statement raises, there is no `try`, and no stage is ever created | any valid POST by an admin | pass `current_user.id` as `created_by_id` | high (not executed) | StageAdmin.NewStageNeverCommitsAsWritten | StageAdmin.NewStage |
| app.py:104-106 | under PostgreSQL a failed COMMIT has already ended the transaction, and `conn.rollback()` discards it; the retried `conn.commit()` commits nothing and `safe_commit` returns True, so the handler reports success with its writes lost | a COMMIT that reports "deadlock detected", then a second COMMIT that succeeds | retry only where the failed COMMIT leaves the transaction open, and otherwise raise | medium (not executed) | Retry.DeadlockRetryAsWritten | Retry.SafeCommit |
| app.py:2017 | `peek_next_bd_sales_for_assignment()` closes the request's shared connection (app.py:498); the handler's next `cursor.execute` (app.py:2025) then raises on the closed connection, so a valid POST never assigns a BD user | a POST choosing an existing BD user for an 'Accepted' lead | the peek reads the pointer without closing the caller's connection | high (not executed) | Lifecycle.AssignBdNeverCommitsAsWritten | Lifecycle.AssignBd |
| app.py:3318-3323 | `has_period_overlap` closes the request's shared connection before returning (app.py:599), so the INSERT of `new_target` raises and no target is ever created | a valid new target whose period overlaps none of the assignee's targets | the overlap check leaves the caller's connection open | high (not executed) | Targets.TargetWritesFailAsWritten | Targets.TargetBoard.NewTarget |
| app.py:3373-3378 | the same closed connection makes the UPDATE of `edit_target` raise, so no target is ever changed | a valid edit of an existing target by its author | the overlap check leaves the caller's connection open | high (not executed) | Targets.TargetWritesFailAsWritten | Targets.TargetBoard.EditTarget |
| app.py:1006 | the count rewrite looks for the select list written on one line, but the query breaks it after `la.deadline_at,` (app.py:964-965); nothing is replaced, the count query still selects the lead rows, and `fetchone()['total']` at app.py:1008 raises on every dashboard load | any dashboard request | replace the select list as the query spells it, giving `SELECT COUNT(*) as total` | high (not executed) | DashboardQuery.CountAsWrittenLacksTotal | DashboardQuery.RewriteReplacesList |
| app.py:1012 | the status-count rewrite has the same one-line pattern, so it would group the lead rows by status instead of counting them (it runs only after app.py:1008, which already raises) | any dashboard request | replace the select list with `SELECT l.status, COUNT(*) as count` | high (not executed) | DashboardQuery.StatusRewrites | DashboardQuery.StatusRewrites |
