/**
 * Lead targets: a count a user is to reach within a period of days. Admins
 * set targets for managers and managers for marketers; two targets of the
 * same assignee never share a day; only the admin or the target's author may
 * edit or delete it. Dates are day numbers.
 */
module Targets {
  import opened Wrappers
  import opened Schema
  import opened Store
  import opened Rows

  /**
   * `target_type`, a select field with the choices 'monthly' and 'weekly',
   * the two values the column's CHECK admits.
   */
  datatype TargetType = Monthly | Weekly

  datatype Target = Target(id: int, assignedBy: int, assignee: int, count: int, start: int, end: int, kind: TargetType)

  /** The three clauses of the overlap query, existing period [s0, e0] against the new [s, e]. */
  predicate OverlapClauses(s0: int, e0: int, s: int, e: int)
  {
    (s0 <= e && e0 >= e) || (s0 <= s && e0 >= s) || (s0 >= s && e0 <= e)
  }

  predicate Intersect(s0: int, e0: int, s: int, e: int)
  {
    s0 <= e && s <= e0
  }

  /** For well-formed periods the three clauses say exactly that the two periods share a day. */
  lemma OverlapIsIntersection(s0: int, e0: int, s: int, e: int)
    requires s0 <= e0 && s <= e
    ensures OverlapClauses(s0, e0, s, e) <==> Intersect(s0, e0, s, e)
  {
  }

  /** Without a well-formed existing period the clauses report overlaps that are not there. */
  lemma OverlapNeedsWellFormed()
    ensures OverlapClauses(10, 0, 1, 5) && !Intersect(10, 0, 1, 5)
  {
  }

  /** `exclude_id` is honoured only when it is truthy. */
  predicate Excluded(t: Target, exclude: Option<int>)
  {
    exclude.Some? && exclude.value != 0 && t.id == exclude.value
  }

  /** `has_period_overlap(assignee, start, end, exclude_id)`. */
  function HasPeriodOverlap(targets: seq<Target>, assignee: int, s: int, e: int, exclude: Option<int>): (r: bool)
    ensures r <==> exists t :: (t in targets && t.assignee == assignee && !Excluded(t, exclude) &&
                                OverlapClauses(t.start, t.end, s, e))
  {
    if |targets| == 0 then false
    else
      var t := targets[0];
      assert targets == [t] + targets[1..];
      (t.assignee == assignee && !Excluded(t, exclude) && OverlapClauses(t.start, t.end, s, e)) ||
      HasPeriodOverlap(targets[1..], assignee, s, e, exclude)
  }

  /** Admins set targets for managers, managers for marketers: the assignee choices of the form. */
  predicate AssigneeAllowed(users: seq<User>, actor: User, assignee: int)
  {
    var f := FindUser(users, assignee);
    f.Some? && f.value.role == (if actor.role == Admin then Manager else Marketer)
  }

  /** The form's validators and the period check, in the order the handlers apply them. */
  function FormOutcome(users: seq<User>, actor: User, assignee: int, count: int, s: int, e: int): Outcome
  {
    if !AssigneeAllowed(users, actor, assignee) || !(1 <= count <= 1000) then BadRequest
    else if e <= s then BadRequest
    else Ok
  }

  /** `new_target`: refused for any role but admin and manager, for a bad form, or for an overlapping period. */
  function NewTargetOutcome(targets: seq<Target>, users: seq<User>, actor: User, assignee: int, count: int, s: int, e: int): Outcome
  {
    if actor.role != Admin && actor.role != Manager then Forbidden
    else if FormOutcome(users, actor, assignee, count, s, e) != Ok then BadRequest
    else if HasPeriodOverlap(targets, assignee, s, e, None) then InvalidState
    else Ok
  }

  /** `edit_target`: a missing target, then the author test, then the form and the overlap check without the target itself. */
  function EditTargetOutcome(targets: seq<Target>, users: seq<User>, actor: User, id: int, assignee: int, count: int, s: int, e: int): Outcome
  {
    if actor.role != Admin && actor.role != Manager then Forbidden
    else match FindTarget(targets, id)
      case None => NotFound
      case Some(k) =>
        if !MayChange(actor, targets[k]) then Forbidden
        else if FormOutcome(users, actor, assignee, count, s, e) != Ok then BadRequest
        else if HasPeriodOverlap(targets, assignee, s, e, Some(id)) then InvalidState
        else Ok
  }

  /**
   * The handlers as written. `get_db` hands every caller in a request the
   * same connection, and `has_period_overlap` closes it before returning;
   * when it finds no overlap, the handler's INSERT or UPDATE then runs on a
   * closed connection and raises, and nothing is written.
   */
  function AfterOverlapCheckAsWritten(corrected: Outcome): Outcome
  {
    if corrected == Ok then Failed else corrected
  }

  /**
   * As written, neither handler can ever write a target: every request the
   * corrected handlers would commit fails instead, and every refusal is the same.
   */
  lemma TargetWritesFailAsWritten(targets: seq<Target>, users: seq<User>, actor: User, id: int,
                                  assignee: int, count: int, s: int, e: int)
    ensures var n := NewTargetOutcome(targets, users, actor, assignee, count, s, e);
      AfterOverlapCheckAsWritten(n) != Ok &&
      (n == Ok <==> AfterOverlapCheckAsWritten(n) == Failed) &&
      (n != Ok ==> AfterOverlapCheckAsWritten(n) == n)
    ensures var u := EditTargetOutcome(targets, users, actor, id, assignee, count, s, e);
      AfterOverlapCheckAsWritten(u) != Ok &&
      (u == Ok <==> AfterOverlapCheckAsWritten(u) == Failed) &&
      (u != Ok ==> AfterOverlapCheckAsWritten(u) == u)
  {
  }

  /** Author of a target or an admin. */
  predicate MayChange(actor: User, t: Target)
  {
    actor.role == Admin || t.assignedBy == actor.id
  }

  function FindTarget(targets: seq<Target>, id: int): (r: Option<nat>)
    ensures r.Some? ==> r.value < |targets| && targets[r.value].id == id
    ensures r.None? ==> forall t :: t in targets ==> t.id != id
  {
    if |targets| == 0 then None
    else if targets[0].id == id then Some(0)
    else match FindTarget(targets[1..], id)
      case None => None
      case Some(k) => Some(k + 1)
  }

  /** `DELETE FROM lead_targets WHERE id = …`. */
  function Remove(targets: seq<Target>, id: int): seq<Target>
  {
    Filter(targets, (t: Target) => t.id != id)
  }

  /** Deleting a target removes that target and keeps every other one. */
  lemma RemoveSpec(targets: seq<Target>, id: int)
    ensures forall t :: t in Remove(targets, id) <==> t in targets && t.id != id
  {
    FilterMembers(targets, (t: Target) => t.id != id);
  }

  /**
   * Ids are distinct, positive and below the next one; every period ends
   * after it starts; two targets of one assignee share no day.
   */
  ghost predicate PeriodsDisjoint(targets: seq<Target>, nextId: int)
  {
    (forall i :: 0 <= i < |targets| ==> 0 < targets[i].id < nextId && targets[i].start < targets[i].end) &&
    (forall i, j :: 0 <= i < j < |targets| ==> targets[i].id != targets[j].id) &&
    (forall i, j :: 0 <= i < j < |targets| && targets[i].assignee == targets[j].assignee ==>
      !Intersect(targets[i].start, targets[i].end, targets[j].start, targets[j].end))
  }

  /** When the overlap query finds nothing, the new period shares no day with any row it looked at. */
  lemma NoOverlapApart(targets: seq<Target>, nextId: int, assignee: int, s: int, e: int, exclude: Option<int>)
    requires PeriodsDisjoint(targets, nextId) && s < e
    requires !HasPeriodOverlap(targets, assignee, s, e, exclude)
    ensures forall i :: 0 <= i < |targets| && targets[i].assignee == assignee && !Excluded(targets[i], exclude) ==>
      !Intersect(targets[i].start, targets[i].end, s, e)
  {
    forall i | 0 <= i < |targets| && targets[i].assignee == assignee && !Excluded(targets[i], exclude)
      ensures !Intersect(targets[i].start, targets[i].end, s, e)
    {
      assert targets[i] in targets;
      OverlapIsIntersection(targets[i].start, targets[i].end, s, e);
    }
  }

  /** A fresh row whose period is apart from the assignee's others extends a disjoint board. */
  lemma AppendKeepsDisjoint(targets: seq<Target>, nextId: int, t: Target)
    requires PeriodsDisjoint(targets, nextId)
    requires 0 < nextId && t.id == nextId && t.start < t.end
    requires forall i :: 0 <= i < |targets| && targets[i].assignee == t.assignee ==>
      !Intersect(targets[i].start, targets[i].end, t.start, t.end)
    ensures PeriodsDisjoint(targets + [t], nextId + 1)
  {
    var s := targets + [t];
    assert forall i :: 0 <= i < |targets| ==> s[i] == targets[i];
  }

  /** Rewriting row k, id kept, with a period apart from the assignee's other rows keeps the board disjoint. */
  lemma UpdateKeepsDisjoint(targets: seq<Target>, nextId: int, k: nat, t: Target)
    requires PeriodsDisjoint(targets, nextId) && k < |targets|
    requires t.id == targets[k].id && t.start < t.end
    requires forall i :: 0 <= i < |targets| && targets[i].assignee == t.assignee && targets[i].id != t.id ==>
      !Intersect(targets[i].start, targets[i].end, t.start, t.end)
    ensures PeriodsDisjoint(targets[k := t], nextId)
  {
  }

  class TargetBoard {
    var targets: seq<Target>
    var nextId: int

    ghost predicate Valid()
      reads this
    {
      nextId > 0 && PeriodsDisjoint(targets, nextId)
    }

    constructor ()
      ensures Valid() && targets == [] && nextId == 1
    {
      targets := [];
      nextId := 1;
    }

    /** `new_target`: refused for any role but admin and manager, for a bad form, or for an overlapping period. */
    method NewTarget(users: seq<User>, actor: User, assignee: int, count: int, s: int, e: int, kind: TargetType) returns (r: Outcome)
      requires Valid()
      modifies this
      ensures Valid()
      ensures r == NewTargetOutcome(old(targets), users, actor, assignee, count, s, e)
      ensures r != Ok ==> targets == old(targets) && nextId == old(nextId)
      ensures r == Ok ==> targets == old(targets) + [Target(old(nextId), actor.id, assignee, count, s, e, kind)]
      ensures r == Ok ==> nextId == old(nextId) + 1
    {
      if actor.role != Admin && actor.role != Manager {
        return Forbidden;
      }
      if FormOutcome(users, actor, assignee, count, s, e) != Ok {
        return BadRequest;
      }
      if HasPeriodOverlap(targets, assignee, s, e, None) {
        return InvalidState;
      }
      var t := Target(nextId, actor.id, assignee, count, s, e, kind);
      NoOverlapApart(targets, nextId, assignee, s, e, None);
      AppendKeepsDisjoint(targets, nextId, t);
      targets := targets + [t];
      nextId := nextId + 1;
      r := Ok;
    }

    /** `edit_target`: the target's own row is left out of the overlap check. */
    method EditTarget(users: seq<User>, actor: User, id: int, assignee: int, count: int, s: int, e: int, kind: TargetType)
      returns (r: Outcome)
      requires Valid()
      modifies this
      ensures Valid()
      ensures r == EditTargetOutcome(old(targets), users, actor, id, assignee, count, s, e)
      ensures nextId == old(nextId)
      ensures r != Ok ==> targets == old(targets)
      ensures r == Ok ==> var k := FindTarget(old(targets), id).value;
        targets == old(targets)[k := old(targets)[k].(assignee := assignee, count := count, start := s, end := e, kind := kind)]
    {
      if actor.role != Admin && actor.role != Manager {
        return Forbidden;
      }
      var found := FindTarget(targets, id);
      if found.None? {
        return NotFound;
      }
      var k := found.value;
      if !MayChange(actor, targets[k]) {
        return Forbidden;
      }
      if FormOutcome(users, actor, assignee, count, s, e) != Ok {
        return BadRequest;
      }
      if HasPeriodOverlap(targets, assignee, s, e, Some(id)) {
        return InvalidState;
      }
      var t := targets[k].(assignee := assignee, count := count, start := s, end := e, kind := kind);
      NoOverlapApart(targets, nextId, assignee, s, e, Some(id));
      UpdateKeepsDisjoint(targets, nextId, k, t);
      targets := targets[k := t];
      r := Ok;
    }

    /** `delete_target`. */
    method DeleteTarget(actor: User, id: int) returns (r: Outcome)
      requires Valid()
      modifies this
      ensures Valid()
      ensures r == (if actor.role != Admin && actor.role != Manager then Forbidden
                    else if FindTarget(old(targets), id).None? then NotFound
                    else if !MayChange(actor, old(targets)[FindTarget(old(targets), id).value]) then Forbidden
                    else Ok)
      ensures nextId == old(nextId)
      ensures r != Ok ==> targets == old(targets)
      ensures r == Ok ==> targets == Remove(old(targets), id)
    {
      if actor.role != Admin && actor.role != Manager {
        return Forbidden;
      }
      var found := FindTarget(targets, id);
      if found.None? {
        return NotFound;
      }
      if !MayChange(actor, targets[found.value]) {
        return Forbidden;
      }
      RemoveKeepsDisjoint(targets, id, nextId);
      targets := Remove(targets, id);
      r := Ok;
    }
  }

  /** A first row that clashes with no later row extends a disjoint board. */
  lemma ConsDisjoint(h: Target, rest: seq<Target>, nextId: int)
    requires PeriodsDisjoint(rest, nextId)
    requires 0 < h.id < nextId && h.start < h.end
    requires forall k :: 0 <= k < |rest| ==>
      rest[k].id != h.id && (rest[k].assignee == h.assignee ==> !Intersect(h.start, h.end, rest[k].start, rest[k].end))
    ensures PeriodsDisjoint([h] + rest, nextId)
  {
    var s := [h] + rest;
    assert forall i :: 0 < i < |s| ==> s[i] == rest[i - 1];
  }

  /** Every row left after removing from the tail clashes with neither the id nor the period of the head. */
  lemma HeadApartFromRemoved(targets: seq<Target>, id: int, nextId: int)
    requires |targets| > 0 && PeriodsDisjoint(targets, nextId)
    ensures var rest := Remove(targets[1..], id);
      forall k :: 0 <= k < |rest| ==>
        rest[k].id != targets[0].id && (rest[k].assignee == targets[0].assignee ==> !Intersect(targets[0].start, targets[0].end, rest[k].start, rest[k].end))
  {
    var rest := Remove(targets[1..], id);
    FilterMembers(targets[1..], (t: Target) => t.id != id);
    forall k | 0 <= k < |rest|
      ensures rest[k].id != targets[0].id
      ensures rest[k].assignee == targets[0].assignee ==>
        !Intersect(targets[0].start, targets[0].end, rest[k].start, rest[k].end)
    {
      assert rest[k] in targets[1..];
      var j :| 0 <= j < |targets[1..]| && targets[1..][j] == rest[k];
      assert targets[j + 1] == rest[k];
    }
  }

  /** Removing rows keeps the board's invariant. */
  lemma {:induction false} RemoveKeepsDisjoint(targets: seq<Target>, id: int, nextId: int)
    requires PeriodsDisjoint(targets, nextId)
    ensures PeriodsDisjoint(Remove(targets, id), nextId)
    decreases |targets|
  {
    if |targets| > 0 {
      assert PeriodsDisjoint(targets[1..], nextId);
      RemoveKeepsDisjoint(targets[1..], id, nextId);
      var rest := Remove(targets[1..], id);
      if targets[0].id != id {
        HeadApartFromRemoved(targets, id, nextId);
        ConsDisjoint(targets[0], rest, nextId);
        assert Remove(targets, id) == [targets[0]] + rest;
      } else {
        assert Remove(targets, id) == rest;
      }
    }
  }
}
