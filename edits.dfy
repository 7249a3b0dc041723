/**
 * Editing a lead: who may edit it, the list of field changes the edit
 * records (one `lead_edit_changes` row per changed field), the audit note and
 * the updated lead.
 */
module Edits {
  import opened Wrappers
  import opened Text
  import opened Schema
  import opened Store
  import opened Services
  import opened Storage
  import opened Forms

  /** Who may open the edit form of a lead. */
  function EditGuard(actor: User, lead: Lead): (r: Outcome)
    ensures r == Ok || r == Forbidden || r == InvalidState
    ensures actor.role == Admin || actor.role == Manager ==> r == Ok
    ensures actor.role == BdSales ==> r == Forbidden
    ensures actor.role == Marketer ==>
      (r == Ok <==> lead.submitter == actor.id && (lead.status == Rejected || lead.status == Resubmitted)) &&
      (r == Forbidden <==> lead.submitter != actor.id)
  {
    if actor.role !in {Admin, Manager, Marketer} then Forbidden
    else if actor.role == Marketer && lead.submitter != actor.id then Forbidden
    else if actor.role == Marketer && lead.status != Rejected && lead.status != Resubmitted then InvalidState
    else Ok
  }

  /** One entry of `changes`; a `None` new value is the NULL of a failed upload's missing url. */
  datatype Change = Change(field: string, oldValue: string, newValue: Option<string>)

  /** The compared columns, in the order the handler compares them. */
  const FieldNames: seq<string> := ["full_name", "email", "phone", "company", "domain", "industry", "country", "state", "city"]

  function Fields(c: Contact): (r: seq<string>)
    ensures |r| == |FieldNames|
  {
    [c.fullName, c.email, c.phone, c.company, c.domain, c.industry, c.country, c.state, c.city]
  }

  lemma FieldsInjective(a: Contact, b: Contact)
    ensures Fields(a) == Fields(b) <==> a == b
  {
    if Fields(a) == Fields(b) {
      assert Fields(a)[0] == Fields(b)[0] && Fields(a)[1] == Fields(b)[1] && Fields(a)[2] == Fields(b)[2];
      assert Fields(a)[3] == Fields(b)[3] && Fields(a)[4] == Fields(b)[4] && Fields(a)[5] == Fields(b)[5];
      assert Fields(a)[6] == Fields(b)[6] && Fields(a)[7] == Fields(b)[7] && Fields(a)[8] == Fields(b)[8];
    }
  }

  /** The changes among the first `|olds|` compared fields, in order. */
  function Diff(names: seq<string>, olds: seq<string>, news: seq<string>): (cs: seq<Change>)
    requires |olds| <= |names| && |olds| == |news|
    ensures |cs| <= |olds|
    decreases |olds|
  {
    if |olds| == 0 then []
    else
      var n := |olds| - 1;
      Diff(names, olds[..n], news[..n]) + (if olds[n] != news[n] then [Change(names[n], olds[n], Some(news[n]))] else [])
  }

  /**
   * The diff holds a change for field `i` iff the old and new values differ,
   * and that change carries both values.
   */
  lemma {:induction false} DiffExact(names: seq<string>, olds: seq<string>, news: seq<string>)
    requires |olds| <= |names| && |olds| == |news|
    requires forall i, j :: 0 <= i < j < |names| ==> names[i] != names[j]
    ensures var cs := Diff(names, olds, news);
      (forall c :: c in cs ==> c.newValue.Some? && c.oldValue != c.newValue.value) &&
      (forall i :: 0 <= i < |olds| ==> (olds[i] != news[i] <==> Change(names[i], olds[i], Some(news[i])) in cs)) &&
      (forall c :: c in cs ==> exists i :: 0 <= i < |olds| && c == Change(names[i], olds[i], Some(news[i])))
    decreases |olds|
  {
    if |olds| > 0 {
      var n := |olds| - 1;
      DiffExact(names, olds[..n], news[..n]);
      var cs := Diff(names, olds, news);
      var prev := Diff(names, olds[..n], news[..n]);
      assert cs == prev + (if olds[n] != news[n] then [Change(names[n], olds[n], Some(news[n]))] else []);
      forall c | c in prev
        ensures c.field != names[n]
      {
        var i :| 0 <= i < n && c == Change(names[i], olds[..n][i], Some(news[..n][i]));
      }
      forall i | 0 <= i < n
        ensures olds[..n][i] == olds[i] && news[..n][i] == news[i]
      {
      }
      forall c | c in cs
        ensures exists i :: 0 <= i < |olds| && c == Change(names[i], olds[i], Some(news[i]))
      {
        if c in prev {
          var i :| 0 <= i < n && c == Change(names[i], olds[..n][i], Some(news[..n][i]));
          assert c == Change(names[i], olds[i], Some(news[i]));
        } else {
          assert c == Change(names[n], olds[n], Some(news[n]));
        }
      }
    }
  }

  /** `changes` is empty iff no compared column changed. */
  lemma DiffEmptyIffUnchanged(a: Contact, b: Contact)
    ensures Diff(FieldNames, Fields(a), Fields(b)) == [] <==> a == b
  {
    DiffExact(FieldNames, Fields(a), Fields(b));
    FieldsInjective(a, b);
    var cs := Diff(FieldNames, Fields(a), Fields(b));
    if a != b {
      assert |Fields(a)| == |Fields(b)|;
      var i :| 0 <= i < |FieldNames| && Fields(a)[i] != Fields(b)[i];
      assert Change(FieldNames[i], Fields(a)[i], Some(Fields(b)[i])) in cs;
    } else {
      DiffSame(FieldNames, Fields(a));
    }
  }

  lemma {:induction false} DiffSame(names: seq<string>, vals: seq<string>)
    requires |vals| <= |names|
    ensures Diff(names, vals, vals) == []
    decreases |vals|
  {
    if |vals| > 0 {
      DiffSame(names, vals[..|vals| - 1]);
    }
  }

  /** The contact-field part of `changes`, built field by field. */
  method ContactChanges(before: Contact, after: Contact) returns (changes: seq<Change>)
    ensures changes == Diff(FieldNames, Fields(before), Fields(after))
  {
    var olds, news := Fields(before), Fields(after);
    changes := [];
    for i := 0 to |olds|
      invariant changes == Diff(FieldNames, olds[..i], news[..i])
    {
      assert olds[..i + 1][..i] == olds[..i] && news[..i + 1][..i] == news[..i];
      if olds[i] != news[i] {
        changes := changes + [Change(FieldNames[i], olds[i], Some(news[i]))];
      }
    }
    assert olds[..|olds|] == olds && news[..|news|] == news;
  }

  /**
   * `SELECT name FROM services WHERE id IN (…)`: every row of the services
   * table whose id is listed, once, in the table's row order (the query has
   * no ORDER BY, so the rows come as the table holds them).
   */
  function NamesOf(ids: seq<int>, catalog: seq<Service>): (r: seq<string>)
    ensures |r| <= |catalog|
  {
    if |catalog| == 0 then []
    else (if catalog[0].id in ids then [catalog[0].name] else []) + NamesOf(ids, catalog[1..])
  }

  /** The names come from the listed rows of the table and from no other. */
  lemma {:induction false} NamesOfMembers(ids: seq<int>, catalog: seq<Service>)
    ensures forall n :: n in NamesOf(ids, catalog) <==> exists s :: s in catalog && s.id in ids && s.name == n
    decreases |catalog|
  {
    if |catalog| > 0 {
      NamesOfMembers(ids, catalog[1..]);
      assert catalog == [catalog[0]] + catalog[1..];
    }
  }

  /** Only the set of listed ids matters: "3,1" reads like "1,3", and "1,1" like "1". */
  lemma {:induction false} NamesOfIgnoresOrder(ids1: seq<int>, ids2: seq<int>, catalog: seq<Service>)
    requires forall x :: x in ids1 <==> x in ids2
    ensures NamesOf(ids1, catalog) == NamesOf(ids2, catalog)
    decreases |catalog|
  {
    if |catalog| > 0 {
      NamesOfIgnoresOrder(ids1, ids2, catalog[1..]);
    }
  }

  /** How the old `services_csv` is shown in the change row; None when `int()` raises. */
  function OldServicesShown(csv: string, catalog: seq<Service>): Option<string>
  {
    var parts := StrippedParts(csv);
    if IsDigits(parts[0]) then
      (if AllInts(parts) then Some(Join(NamesOf(ParseAll(parts), catalog), ", ")) else None)
    else Some(Join(parts, ", "))
  }

  /** `upload_result.get('url')`: the url of a stored upload; None for the error dict. */
  function UploadedUrl(u: UploadResult): Option<string>
  {
    if u.Uploaded? then u.url else None
  }

  /** The old value of the attachment entry: the stored path, or 'None' when it is NULL or empty. */
  function OldAttachmentShown(lead: Lead): string
  {
    if lead.attachment.Some? && lead.attachment.value != "" then lead.attachment.value else "None"
  }

  /**
   * The entries added after the contact fields when the services change or a
   * file is sent. `upload` is None when no file was sent, and otherwise what
   * `upload_file` returned.
   */
  function ExtraChanges(lead: Lead, services: seq<nat>, upload: Option<UploadResult>, catalog: seq<Service>): (r: Option<seq<Change>>)
    ensures r.None? <==> ServicesCsv(services) != lead.servicesCsv && OldServicesShown(lead.servicesCsv, catalog).None?
    ensures r.Some? ==> forall c :: c in r.value ==> c.field == "services" || c.field == "attachment"
    ensures r.Some? && upload.Some? ==> Change("attachment", OldAttachmentShown(lead), UploadedUrl(upload.value)) in r.value
    ensures r.Some? && upload.None? ==> forall c :: c in r.value ==> c.field == "services"
  {
    var newCsv := ServicesCsv(services);
    var svc := if newCsv == lead.servicesCsv then Some([])
               else match OldServicesShown(lead.servicesCsv, catalog)
                    case None => None
                    case Some(o) => Some([Change("services", o, Some(Join(NamesOf(services, catalog), ", ")))]);
    var att := match upload
               case None => []
               case Some(u) => [Change("attachment", OldAttachmentShown(lead), UploadedUrl(u))];
    match svc
    case None => None
    case Some(s) => Some(s + att)
  }

  /** A value as an f-string shows it: NULL prints as 'None'. */
  function Shown(v: Option<string>): string
  {
    if v.Some? then v.value else "None"
  }

  function ChangeLine(c: Change): string
  {
    " " + c.field + ": '" + c.oldValue + "'  '" + Shown(c.newValue) + "'"
  }

  function ChangeLines(cs: seq<Change>): (r: seq<string>)
    ensures |r| == |cs|
  {
    seq(|cs|, i requires 0 <= i < |cs| => ChangeLine(cs[i]))
  }

  function EditNoteText(editor: string, cs: seq<Change>, summary: string): string
  {
    "Lead edited by " + editor + ":\n" + Join(ChangeLines(cs), "\n") + "\n\nSummary: " + summary
  }

  function ChangeRows(leadId: int, editor: int, cs: seq<Change>): (rows: seq<EditChange>)
    ensures |rows| == |cs|
    ensures forall i :: 0 <= i < |cs| ==> rows[i] == EditChange(leadId, editor, cs[i].field, cs[i].oldValue, cs[i].newValue)
  {
    seq(|cs|, i requires 0 <= i < |cs| => EditChange(leadId, editor, cs[i].field, cs[i].oldValue, cs[i].newValue))
  }

  /** The ids of the services table: the choices `form.services.choices` offers. */
  function CatalogIds(catalog: seq<Service>): (ids: seq<nat>)
    ensures |ids| == |catalog|
    ensures forall n :: n in ids <==> exists s :: s in catalog && s.id == n
  {
    if |catalog| == 0 then [] else [catalog[0].id] + CatalogIds(catalog[1..])
  }

  /** The UPDATE of `leads`: a sent file replaces the attachment by its url, NULL when the upload failed. */
  function EditedLead(lead: Lead, contact: Contact, services: seq<nat>, upload: Option<UploadResult>): Lead
  {
    lead.(contact := contact, servicesCsv := ServicesCsv(services),
          attachment := if upload.Some? then UploadedUrl(upload.value) else lead.attachment)
  }

  /**
   * A sent file whose upload failed (`upload_file` returned the error dict)
   * still records an attachment entry, with a NULL new value, and clears the
   * stored attachment.
   */
  lemma FailedUploadClearsAttachment(lead: Lead, contact: Contact, services: seq<nat>, error: string, catalog: seq<Service>)
    ensures EditedLead(lead, contact, services, Some(UploadError(error))).attachment == None
    ensures var r := ExtraChanges(lead, services, Some(UploadError(error)), catalog);
      r.Some? ==> Change("attachment", OldAttachmentShown(lead), None) in r.value
  {
  }

  function AfterEdit(t: Tables, actor: User, leadId: int, cs: seq<Change>, contact: Contact, services: seq<nat>,
                     upload: Option<UploadResult>, summary: string, now: int): Tables
    requires leadId in t.leads
  {
    t.(editChanges := t.editChanges + ChangeRows(leadId, actor.id, cs),
       notes := t.notes + [Note(leadId, actor.id, EditNote, EditNoteText(actor.name, cs, summary), now)],
       leads := t.leads[leadId := EditedLead(t.leads[leadId], contact, services, upload)])
  }

  /**
   * After an edit the stored lead holds exactly the submitted values (the
   * diff applied), its status and ownership are untouched, and one change
   * row exists per changed contact column.
   */
  lemma EditEffects(t: Tables, actor: User, leadId: int, contact: Contact, services: seq<nat>, upload: Option<UploadResult>,
                    summary: string, now: int, extra: seq<Change>)
    requires leadId in t.leads
    requires forall c :: c in extra ==> c.field !in FieldNames
    ensures var before := t.leads[leadId].contact;
      var cs := Diff(FieldNames, Fields(before), Fields(contact)) + extra;
      var t' := AfterEdit(t, actor, leadId, cs, contact, services, upload, summary, now);
      t'.leads[leadId].contact == contact && t'.leads[leadId].status == t.leads[leadId].status &&
      t'.leads[leadId].submitter == t.leads[leadId].submitter &&
      t'.leads[leadId].currentManager == t.leads[leadId].currentManager &&
      t'.editChanges[..|t.editChanges|] == t.editChanges &&
      (forall i :: 0 <= i < |FieldNames| ==>
        (Fields(before)[i] != Fields(contact)[i] <==>
         EditChange(leadId, actor.id, FieldNames[i], Fields(before)[i], Some(Fields(contact)[i])) in t'.editChanges[|t.editChanges|..]))
  {
    var before := t.leads[leadId].contact;
    var cs := Diff(FieldNames, Fields(before), Fields(contact)) + extra;
    var t' := AfterEdit(t, actor, leadId, cs, contact, services, upload, summary, now);
    var rows := ChangeRows(leadId, actor.id, cs);
    assert t'.editChanges == t.editChanges + rows;
    AppendedPart(t.editChanges, rows);
    ChangeRowsOfDiff(leadId, actor.id, FieldNames, Fields(before), Fields(contact), extra);
  }

  /** What was appended after a prefix can be read back from the suffix. */
  lemma AppendedPart<T>(xs: seq<T>, ys: seq<T>)
    ensures (xs + ys)[..|xs|] == xs && (xs + ys)[|xs|..] == ys
  {
  }

  /**
   * The rows of a diff followed by changes to other fields: a row for field
   * `i` iff its old and new values differ.
   */
  lemma ChangeRowsOfDiff(leadId: int, editor: int, names: seq<string>, olds: seq<string>, news: seq<string>, extra: seq<Change>)
    requires |olds| <= |names| && |olds| == |news|
    requires forall i, j :: 0 <= i < j < |names| ==> names[i] != names[j]
    requires forall c :: c in extra ==> c.field !in names
    ensures var added := ChangeRows(leadId, editor, Diff(names, olds, news) + extra);
      forall i :: 0 <= i < |olds| ==>
        (olds[i] != news[i] <==> EditChange(leadId, editor, names[i], olds[i], Some(news[i])) in added)
  {
    var d := Diff(names, olds, news);
    var cs := d + extra;
    var added := ChangeRows(leadId, editor, cs);
    DiffExact(names, olds, news);
    forall i | 0 <= i < |olds|
      ensures olds[i] != news[i] <==> EditChange(leadId, editor, names[i], olds[i], Some(news[i])) in added
    {
      var row := EditChange(leadId, editor, names[i], olds[i], Some(news[i]));
      var c := Change(names[i], olds[i], Some(news[i]));
      if olds[i] != news[i] {
        var k :| 0 <= k < |d| && d[k] == c;
        assert cs[k] == c;
        assert added[k] == row;
      } else {
        forall k | 0 <= k < |added|
          ensures added[k] != row
        {
          if k < |d| {
            assert cs[k] == d[k] && d[k] in d;
          } else {
            assert cs[k] == extra[k - |d|] && extra[k - |d|] in extra;
            assert names[i] in names;
          }
        }
      }
    }
  }

  /** One more change gives one more row at the end. */
  lemma ChangeRowsStep(leadId: int, editor: int, cs: seq<Change>, i: nat)
    requires i < |cs|
    ensures ChangeRows(leadId, editor, cs[..i + 1]) ==
      ChangeRows(leadId, editor, cs[..i]) + [EditChange(leadId, editor, cs[i].field, cs[i].oldValue, cs[i].newValue)]
  {
    assert cs[..i + 1][i] == cs[i];
  }

  /** The `INSERT INTO lead_edit_changes` loop: one row per change, in order, after the existing rows. */
  method AppendChangeRows(rows: seq<EditChange>, leadId: int, editor: int, changes: seq<Change>) returns (out: seq<EditChange>)
    ensures out == rows + ChangeRows(leadId, editor, changes)
  {
    out := rows;
    for i := 0 to |changes|
      invariant out == rows + ChangeRows(leadId, editor, changes[..i])
    {
      ChangeRowsStep(leadId, editor, changes, i);
      out := out + [EditChange(leadId, editor, changes[i].field, changes[i].oldValue, changes[i].newValue)];
    }
    assert changes[..|changes|] == changes;
  }

  /**
   * `edit_lead` on a POST. `upload` is None when no file was sent and
   * otherwise what `upload_file` returned; `catalog` is the services table,
   * whose ids are the choices of the services field. A form `LeadEditForm`
   * refuses writes nothing (the handler renders the form again).
   */
  method EditLead(db: Db, actor: User, leadId: int, contact: Contact, services: seq<nat>, upload: Option<UploadResult>,
                  summary: string, catalog: seq<Service>, now: int) returns (r: Outcome)
    requires db.Valid()
    modifies db
    ensures db.Valid()
    ensures r != Ok ==> db.tables == old(db.tables)
    ensures leadId !in old(db.tables.leads) ==> r != Ok
    ensures leadId in old(db.tables.leads) && EditGuard(actor, old(db.tables.leads[leadId])) != Ok ==>
      r == EditGuard(actor, old(db.tables.leads[leadId]))
    ensures r == BadRequest <==> (leadId in old(db.tables.leads) && EditGuard(actor, old(db.tables.leads[leadId])) == Ok &&
      !EditFormValid(contact, services, CatalogIds(catalog), summary))
    ensures r == Ok <==> (leadId in old(db.tables.leads) && EditGuard(actor, old(db.tables.leads[leadId])) == Ok &&
      EditFormValid(contact, services, CatalogIds(catalog), summary) &&
      ExtraChanges(old(db.tables.leads[leadId]), services, upload, catalog).Some?)
    ensures r == Ok ==> db.tables == AfterEdit(old(db.tables), actor, leadId,
      Diff(FieldNames, Fields(old(db.tables.leads[leadId].contact)), Fields(contact)) +
        ExtraChanges(old(db.tables.leads[leadId]), services, upload, catalog).value,
      contact, services, upload, summary, now)
  {
    if actor.role !in {Admin, Manager, Marketer} {
      return Forbidden;
    }
    var t := db.tables;
    if leadId !in t.leads {
      return NotFound;
    }
    var lead := t.leads[leadId];
    var guard := EditGuard(actor, lead);
    if guard != Ok {
      return guard;
    }
    if !EditFormValid(contact, services, CatalogIds(catalog), summary) {
      return BadRequest;
    }
    var changes := ContactChanges(lead.contact, contact);
    var extra := ExtraChanges(lead, services, upload, catalog);
    if extra.None? {
      return Failed;
    }
    changes := changes + extra.value;
    var rows := AppendChangeRows(t.editChanges, leadId, actor.id, changes);
    var t' := t.(editChanges := rows,
                 notes := t.notes + [Note(leadId, actor.id, EditNote, EditNoteText(actor.name, changes, summary), now)],
                 leads := t.leads[leadId := EditedLead(lead, contact, services, upload)]);
    SameKeysValid(t, t');
    db.tables := t';
    r := Ok;
  }
}
