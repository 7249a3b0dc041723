/**
 * Round-robin distribution of leads over a pool of users of one role.
 * The singleton `assignment_settings` row holds one pointer per pool: the id
 * last handed a lead. The next candidate is the pool member after the pointer
 * in ascending id order, wrapping to the first; a missing, zero or stale
 * pointer gives the first member.
 */
module RoundRobin {
  import opened Wrappers
  import opened Schema

  predicate StrictlyIncreasing(ids: seq<int>)
  {
    forall i, j :: 0 <= i < j < |ids| ==> ids[i] < ids[j]
  }

  predicate Positive(ids: seq<int>)
  {
    forall i :: 0 <= i < |ids| ==> ids[i] > 0
  }

  /** `SELECT id FROM users WHERE role = ? ORDER BY id`, over a users table kept in id order. */
  function PoolIds(users: seq<User>, role: Role): (ids: seq<int>)
    ensures forall x :: x in ids <==> exists u :: u in users && u.role == role && u.id == x
  {
    if |users| == 0 then []
    else (if users[0].role == role then [users[0].id] else []) + PoolIds(users[1..], role)
  }

  /** A pool read from an ordered users table is in ascending id order and has no zero id. */
  lemma {:induction false} PoolIdsOrdered(users: seq<User>, role: Role)
    requires UsersOrdered(users)
    ensures StrictlyIncreasing(PoolIds(users, role)) && Positive(PoolIds(users, role))
    decreases |users|
  {
    if |users| > 0 {
      var rest := users[1..];
      assert UsersOrdered(rest) by {
        assert forall i :: 0 <= i < |rest| ==> rest[i] == users[i + 1];
      }
      PoolIdsOrdered(rest, role);
      var tail := PoolIds(rest, role);
      forall x | x in tail
        ensures users[0].id < x
      {
        var u :| u in rest && u.role == role && u.id == x;
        var k :| 0 <= k < |rest| && rest[k] == u;
        assert users[k + 1] == u;
      }
      if users[0].role == role {
        var ids := [users[0].id] + tail;
        assert PoolIds(users, role) == ids;
        forall i, j | 0 <= i < j < |ids|
          ensures ids[i] < ids[j]
        {
          assert ids[j] == tail[j - 1];
          if i > 0 {
            assert ids[i] == tail[i - 1];
          } else {
            assert tail[j - 1] in tail;
          }
        }
      } else {
        assert PoolIds(users, role) == tail;
      }
    }
  }

  /** `ids` with `x` dropped, order kept (`... AND id != x ORDER BY id`). */
  function Without(ids: seq<int>, x: int): (r: seq<int>)
    ensures forall y :: y in r <==> y in ids && y != x
    ensures |r| <= |ids|
  {
    if |ids| == 0 then []
    else (if ids[0] == x then [] else [ids[0]]) + Without(ids[1..], x)
  }

  /** Dropping a member keeps a pool ascending, so its head is its smallest member. */
  lemma {:induction false} WithoutIncreasing(ids: seq<int>, x: int)
    requires StrictlyIncreasing(ids)
    ensures StrictlyIncreasing(Without(ids, x))
    ensures forall y :: y in Without(ids, x) ==> Without(ids, x)[0] <= y
    decreases |ids|
  {
    if |ids| > 0 {
      var rest := ids[1..];
      assert StrictlyIncreasing(rest) by {
        assert forall i :: 0 <= i < |rest| ==> rest[i] == ids[i + 1];
      }
      WithoutIncreasing(rest, x);
      var tail := Without(rest, x);
      forall y | y in tail
        ensures ids[0] < y
      {
        var k :| 0 <= k < |rest| && rest[k] == y;
        assert ids[k + 1] == y;
      }
      if ids[0] != x {
        var r := [ids[0]] + tail;
        assert Without(ids, x) == r;
        forall i, j | 0 <= i < j < |r|
          ensures r[i] < r[j]
        {
          assert r[j] == tail[j - 1];
          if i > 0 {
            assert r[i] == tail[i - 1];
          } else {
            assert tail[j - 1] in tail;
          }
        }
      } else {
        assert Without(ids, x) == tail;
      }
    }
  }

  /** Python's `ids.index(x)`: the first position holding `x`. */
  function IndexOf(ids: seq<int>, x: int): (k: nat)
    requires x in ids
    ensures k < |ids| && ids[k] == x
    ensures forall j :: 0 <= j < k ==> ids[j] != x
  {
    if ids[0] == x then 0 else 1 + IndexOf(ids[1..], x)
  }

  /** The pointer counts only when it is set, non-zero and still in the pool. */
  predicate PointerLive(ids: seq<int>, last: Option<int>)
  {
    last.Some? && last.value != 0 && last.value in ids
  }

  /** Position in `ids` of the next candidate. */
  function StartIndex(ids: seq<int>, last: Option<int>): (k: nat)
    requires |ids| > 0
    ensures k < |ids|
  {
    if PointerLive(ids, last) then (IndexOf(ids, last.value) + 1) % |ids| else 0
  }

  /** The member chosen after pointer `last`; None for an empty pool. */
  function NextInRotation(ids: seq<int>, last: Option<int>): (r: Option<int>)
    ensures r.None? <==> |ids| == 0
    ensures r.Some? ==> r.value in ids
    ensures |ids| > 0 && !PointerLive(ids, last) ==> r == Some(ids[0])
  {
    if |ids| == 0 then None else Some(ids[StartIndex(ids, last)])
  }

  lemma ModSucc(k: nat, n: nat)
    requires k < n
    ensures (k + 1) % n == if k + 1 < n then k + 1 else 0
  {
  }

  /** In an ascending pool the member after position k is the smallest one above `ids[k]`. */
  lemma SuccessorIsLeastAbove(ids: seq<int>, k: nat)
    requires StrictlyIncreasing(ids) && k + 1 < |ids|
    ensures ids[k + 1] > ids[k]
    ensures forall y :: y in ids && y > ids[k] ==> ids[k + 1] <= y
  {
    forall y | y in ids && y > ids[k]
      ensures ids[k + 1] <= y
    {
      var m :| 0 <= m < |ids| && ids[m] == y;
      assert k < m;
    }
  }

  /** In an ascending pool only the last member has nothing above it. */
  lemma NothingAboveLast(ids: seq<int>, k: nat)
    requires StrictlyIncreasing(ids) && k < |ids|
    ensures (exists x :: x in ids && x > ids[k]) <==> k + 1 < |ids|
  {
    if k + 1 < |ids| {
      assert ids[k + 1] in ids;
    } else {
      forall x | x in ids
        ensures x <= ids[k]
      {
        var m :| 0 <= m < |ids| && ids[m] == x;
        assert m <= k;
      }
    }
  }

  /**
   * Over an ascending pool, the choice after a live pointer is the smallest
   * member above it, or the smallest member when the pointer is the largest.
   */
  lemma NextIsSuccessor(ids: seq<int>, last: Option<int>)
    requires StrictlyIncreasing(ids) && PointerLive(ids, last)
    ensures var r := NextInRotation(ids, last).value;
      if exists x :: x in ids && x > last.value
      then r > last.value && forall x :: x in ids && x > last.value ==> r <= x
      else r == ids[0]
  {
    var k := IndexOf(ids, last.value);
    ModSucc(k, |ids|);
    assert StartIndex(ids, last) == if k + 1 < |ids| then k + 1 else 0;
    NothingAboveLast(ids, k);
    if k + 1 < |ids| {
      SuccessorIsLeastAbove(ids, k);
    }
  }

  /** `n` consecutive picks starting from pointer `last`, each pick becoming the next pointer. */
  function Takes(ids: seq<int>, last: Option<int>, n: nat): (picks: seq<int>)
    ensures |picks| == (if |ids| == 0 then 0 else n)
    decreases n
  {
    if n == 0 || |ids| == 0 then []
    else
      var v := NextInRotation(ids, last).value;
      [v] + Takes(ids, Some(v), n - 1)
  }

  /** Wrap-around addition of positions, for `a`, `b` below `n`. */
  function Wrap(a: nat, b: nat, n: nat): (k: nat)
    requires a < n && b < n
    ensures k < n
  {
    if a + b < n then a + b else a + b - n
  }

  /** The position of the pick after `ids[s]`, in a pool without repeats or zeros. */
  lemma StartAfterPick(ids: seq<int>, s: nat)
    requires StrictlyIncreasing(ids) && Positive(ids) && s < |ids|
    ensures StartIndex(ids, Some(ids[s])) == if s + 1 < |ids| then s + 1 else 0
  {
    var k := IndexOf(ids, ids[s]);
    assert k == s;
    ModSucc(s, |ids|);
  }

  /** The first pick, then the picks after it. */
  lemma TakesUnfold(ids: seq<int>, last: Option<int>, n: nat)
    requires |ids| > 0 && n > 0
    ensures Takes(ids, last, n) == [ids[StartIndex(ids, last)]] + Takes(ids, Some(ids[StartIndex(ids, last)]), n - 1)
  {
  }

  /** Starting one place later and going one place less lands on the same position. */
  lemma WrapStep(s: nat, j: nat, n: nat)
    requires s < n && 0 < j < n
    ensures Wrap(if s + 1 < n then s + 1 else 0, j - 1, n) == Wrap(s, j, n)
  {
  }

  /** The `j`-th pick is `j` places after the first one, wrapping around. */
  lemma {:induction false} TakesAt(ids: seq<int>, last: Option<int>, n: nat, j: nat)
    requires StrictlyIncreasing(ids) && Positive(ids) && |ids| > 0
    requires j < n && j < |ids|
    ensures Takes(ids, last, n)[j] == ids[Wrap(StartIndex(ids, last), j, |ids|)]
    decreases n
  {
    var s := StartIndex(ids, last);
    TakesUnfold(ids, last, n);
    if j > 0 {
      TakesAt(ids, Some(ids[s]), n - 1, j - 1);
      StartAfterPick(ids, s);
      WrapStep(s, j, |ids|);
    }
  }

  /**
   * Fairness: |ids| consecutive picks from any pointer hand out every member
   * of the pool exactly once, in ascending order from the start position.
   */
  lemma RotationVisitsEachOnce(ids: seq<int>, last: Option<int>)
    requires StrictlyIncreasing(ids) && Positive(ids) && |ids| > 0
    ensures var picks := Takes(ids, last, |ids|);
      |picks| == |ids| &&
      (forall x :: x in picks <==> x in ids) &&
      (forall i, j :: 0 <= i < j < |picks| ==> picks[i] != picks[j])
  {
    var n := |ids|;
    var picks := Takes(ids, last, n);
    var s := StartIndex(ids, last);
    forall j | 0 <= j < n
      ensures picks[j] == ids[Wrap(s, j, n)]
    {
      TakesAt(ids, last, n, j);
    }
    forall x | x in ids
      ensures x in picks
    {
      var k :| 0 <= k < n && ids[k] == x;
      var j := if k >= s then k - s else k + n - s;
      assert Wrap(s, j, n) == k;
      assert picks[j] == x;
    }
    forall i, j | 0 <= i < j < n
      ensures picks[i] != picks[j]
    {
      assert Wrap(s, i, n) != Wrap(s, j, n);
    }
  }

  /**
   * The singleton `assignment_settings` row (id = 1). `rowExists` is false only
   * before `init_db` has inserted it; the row never holds a pointer while absent.
   */
  class AssignmentSettings {
    var rowExists: bool
    var lastManagerId: Option<int>
    var lastBdId: Option<int>

    ghost predicate Valid()
      reads this
    {
      !rowExists ==> lastManagerId.None? && lastBdId.None?
    }

    /** The empty table. */
    constructor ()
      ensures Valid() && !rowExists
    {
      rowExists := false;
      lastManagerId := None;
      lastBdId := None;
    }

    /** `init_db`: insert the all-NULL row when the table is empty. */
    method EnsureRow()
      requires Valid()
      modifies this
      ensures Valid() && rowExists
      ensures old(rowExists) ==> lastManagerId == old(lastManagerId) && lastBdId == old(lastBdId)
      ensures !old(rowExists) ==> lastManagerId.None? && lastBdId.None?
    {
      if !rowExists {
        rowExists := true;
        lastManagerId := None;
        lastBdId := None;
      }
    }

    /**
     * `get_next_manager_for_assignment`: choose the rotation successor among
     * the managers and store it as the manager pointer.
     */
    method TakeNextManager(users: seq<User>) returns (next: Option<int>)
      requires Valid()
      modifies this
      ensures Valid()
      ensures next == NextInRotation(PoolIds(users, Manager), old(lastManagerId))
      ensures next.Some? ==> rowExists && lastManagerId == next
      ensures next.None? ==> rowExists == old(rowExists) && lastManagerId == old(lastManagerId)
      ensures lastBdId == old(lastBdId)
    {
      var ids := PoolIds(users, Manager);
      next := NextInRotation(ids, lastManagerId);
      if next.Some? {
        rowExists := true;
        lastManagerId := next;
      }
    }

    /**
     * `peek_next_bd_sales_for_assignment`: the suggested BD user. Neither pointer
     * moves; a missing row is inserted all-NULL when the BD pool is non-empty.
     */
    method PeekNextBd(users: seq<User>) returns (next: Option<int>)
      requires Valid()
      modifies this
      ensures Valid()
      ensures next == NextInRotation(PoolIds(users, BdSales), old(lastBdId))
      ensures lastManagerId == old(lastManagerId) && lastBdId == old(lastBdId)
      ensures rowExists == (old(rowExists) || next.Some?)
    {
      var ids := PoolIds(users, BdSales);
      if |ids| == 0 {
        return None;
      }
      if !rowExists {
        rowExists := true;
      }
      next := NextInRotation(ids, lastBdId);
    }

    /** `commit_bd_sales_assignment`: store the BD user actually chosen. */
    method CommitBd(bdId: int)
      requires Valid()
      modifies this
      ensures Valid() && rowExists
      ensures lastBdId == Some(bdId) && lastManagerId == old(lastManagerId)
    {
      rowExists := true;
      lastBdId := Some(bdId);
    }

    /** A deleted user's place in the pointer of their pool passes to their replacement. */
    method ReplacePointer(role: Role, userId: int, replacement: int)
      requires Valid() && rowExists
      modifies this
      ensures Valid() && rowExists
      ensures lastManagerId == (if role == Manager && old(lastManagerId) == Some(userId) then Some(replacement) else old(lastManagerId))
      ensures lastBdId == (if role == BdSales && old(lastBdId) == Some(userId) then Some(replacement) else old(lastBdId))
    {
      if role == Manager && lastManagerId == Some(userId) {
        lastManagerId := Some(replacement);
      } else if role == BdSales && lastBdId == Some(userId) {
        lastBdId := Some(replacement);
      }
    }
  }
}
