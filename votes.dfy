/** Vote rows, shared by entry votes and comment votes: each row records one user's
    vote on one target (an entry or a comment). A target's score is meant to be the
    sum of its rows' values. The operations here are the row changes the vote
    handlers make; the handlers look a row up by (target, user) and take the first
    match. */
module Votes {

  datatype VoteRow = VoteRow(id: string, targetId: string, userId: string, value: int, createdAt: int, updatedAt: int)

  /** The accepted vote values: exactly 1 or -1. */
  predicate IsVoteValue(v: int) {
    v == 1 || v == -1
  }

  /** The sum of the values of the rows on `target`. */
  function VoteSum(rows: seq<VoteRow>, target: string): int {
    if rows == [] then 0
    else VoteSum(rows[..|rows| - 1], target) + (if rows[|rows| - 1].targetId == target then rows[|rows| - 1].value else 0)
  }

  /** The number of rows on `target`. */
  function VoteCount(rows: seq<VoteRow>, target: string): nat {
    if rows == [] then 0
    else VoteCount(rows[..|rows| - 1], target) + (if rows[|rows| - 1].targetId == target then 1 else 0)
  }

  /** The handlers' lookup of the row of `user` on `target`: the first match, or the
      length when there is none. */
  function FindVote(rows: seq<VoteRow>, target: string, user: string): (i: nat)
    ensures i <= |rows|
    ensures i < |rows| ==> rows[i].targetId == target && rows[i].userId == user
    ensures forall j :: 0 <= j < i ==> !(rows[j].targetId == target && rows[j].userId == user)
  {
    if rows == [] then 0
    else if rows[0].targetId == target && rows[0].userId == user then 0
    else 1 + FindVote(rows[1..], target, user)
  }

  predicate HasVote(rows: seq<VoteRow>, target: string, user: string) {
    FindVote(rows, target, user) < |rows|
  }

  /** The value of the user's stored vote, 0 when there is none. */
  function CurrentValue(rows: seq<VoteRow>, target: string, user: string): int {
    var i := FindVote(rows, target, user);
    if i < |rows| then rows[i].value else 0
  }

  /** No user has two rows on the same target; the handlers keep it so. */
  predicate OneVotePerUser(rows: seq<VoteRow>) {
    forall i, j :: 0 <= i < j < |rows| ==>
      !(rows[i].targetId == rows[j].targetId && rows[i].userId == rows[j].userId)
  }

  /** The rows after a vote: an existing row gets the new value and `updatedAt`, and
      otherwise a new row is appended with both timestamps set to `now`. */
  function CastVoteRows(rows: seq<VoteRow>, target: string, user: string, value: int, newId: string, now: int): seq<VoteRow> {
    var i := FindVote(rows, target, user);
    if i < |rows| then rows[i := rows[i].(value := value, updatedAt := now)]
    else rows + [VoteRow(newId, target, user, value, now, now)]
  }

  /** The rows after deleting the user's row, if any. */
  function DropVoteRows(rows: seq<VoteRow>, target: string, user: string): seq<VoteRow> {
    var i := FindVote(rows, target, user);
    if i < |rows| then rows[..i] + rows[i + 1..] else rows
  }

  /** The rows after setting the user's row, if any, to 0. */
  function ZeroVoteRows(rows: seq<VoteRow>, target: string, user: string, now: int): seq<VoteRow> {
    var i := FindVote(rows, target, user);
    if i < |rows| then rows[i := rows[i].(value := 0, updatedAt := now)] else rows
  }

  lemma {:induction false} VoteSumUpdate(rows: seq<VoteRow>, i: nat, r: VoteRow, target: string)
    requires i < |rows| && r.targetId == rows[i].targetId
    ensures VoteSum(rows[i := r], target) ==
      VoteSum(rows, target) + (if r.targetId == target then r.value - rows[i].value else 0)
  {
    var n := |rows| - 1;
    if i < n {
      VoteSumUpdate(rows[..n], i, r, target);
      assert rows[i := r][..n] == rows[..n][i := r];
    } else {
      assert rows[i := r][..n] == rows[..n];
    }
  }

  lemma {:induction false} VoteSumConcat(a: seq<VoteRow>, b: seq<VoteRow>, target: string)
    ensures VoteSum(a + b, target) == VoteSum(a, target) + VoteSum(b, target)
  {
    if b != [] {
      VoteSumConcat(a, b[..|b| - 1], target);
      assert (a + b)[..|a + b| - 1] == a + b[..|b| - 1];
    } else {
      assert a + b == a;
    }
  }

  lemma VoteSumRemove(rows: seq<VoteRow>, i: nat, target: string)
    requires i < |rows|
    ensures VoteSum(rows[..i] + rows[i + 1..], target) ==
      VoteSum(rows, target) - (if rows[i].targetId == target then rows[i].value else 0)
  {
    assert rows == rows[..i] + ([rows[i]] + rows[i + 1..]);
    VoteSumConcat(rows[..i], [rows[i]] + rows[i + 1..], target);
    VoteSumConcat([rows[i]], rows[i + 1..], target);
    VoteSumConcat(rows[..i], rows[i + 1..], target);
    assert VoteSum([rows[i]], target) == VoteSum([], target) + (if rows[i].targetId == target then rows[i].value else 0);
  }

  /** A vote moves its target's sum by the new value minus the stored one (0 when
      there was none) and leaves every other target's sum alone. */
  lemma CastVoteSum(rows: seq<VoteRow>, target: string, user: string, value: int, newId: string, now: int, t: string)
    ensures VoteSum(CastVoteRows(rows, target, user, value, newId, now), t) ==
      VoteSum(rows, t) + (if t == target then value - CurrentValue(rows, target, user) else 0)
  {
    var i := FindVote(rows, target, user);
    if i < |rows| {
      VoteSumUpdate(rows, i, rows[i].(value := value, updatedAt := now), t);
    } else {
      var r := VoteRow(newId, target, user, value, now, now);
      assert (rows + [r])[..|rows|] == rows;
    }
  }

  /** Deleting the user's row lowers its target's sum by the stored value. */
  lemma DropVoteSum(rows: seq<VoteRow>, target: string, user: string, t: string)
    ensures VoteSum(DropVoteRows(rows, target, user), t) ==
      VoteSum(rows, t) - (if t == target then CurrentValue(rows, target, user) else 0)
  {
    var i := FindVote(rows, target, user);
    if i < |rows| {
      VoteSumRemove(rows, i, t);
    }
  }

  /** Zeroing the user's row lowers its target's sum by the stored value. */
  lemma ZeroVoteSum(rows: seq<VoteRow>, target: string, user: string, now: int, t: string)
    ensures VoteSum(ZeroVoteRows(rows, target, user, now), t) ==
      VoteSum(rows, t) - (if t == target then CurrentValue(rows, target, user) else 0)
  {
    var i := FindVote(rows, target, user);
    if i < |rows| {
      VoteSumUpdate(rows, i, rows[i].(value := 0, updatedAt := now), t);
    }
  }

  /** After a vote the user's stored vote is the new value, and there is still at most
      one row per user and target. */
  lemma CastVoteStores(rows: seq<VoteRow>, target: string, user: string, value: int, newId: string, now: int)
    requires OneVotePerUser(rows)
    ensures var rows' := CastVoteRows(rows, target, user, value, newId, now);
      && OneVotePerUser(rows')
      && HasVote(rows', target, user)
      && CurrentValue(rows', target, user) == value
  {
    var i := FindVote(rows, target, user);
    var rows' := CastVoteRows(rows, target, user, value, newId, now);
    if i < |rows| {
      assert forall j :: 0 <= j < i ==> rows'[j] == rows[j];
      assert FindVote(rows', target, user) == i by {
        FindVoteAt(rows', target, user, i);
      }
    } else {
      var r := VoteRow(newId, target, user, value, now, now);
      assert forall j :: 0 <= j < |rows| ==> rows'[j] == rows[j];
      FindVoteAt(rows', target, user, |rows|);
    }
  }

  lemma FindVoteAt(rows: seq<VoteRow>, target: string, user: string, i: nat)
    requires i < |rows| && rows[i].targetId == target && rows[i].userId == user
    requires forall j :: 0 <= j < i ==> !(rows[j].targetId == target && rows[j].userId == user)
    ensures FindVote(rows, target, user) == i
  {
    var k := FindVote(rows, target, user);
    if k < i {
    } else if k > i {
    }
  }

  /** After deleting the user's row the user has no vote on the target. */
  lemma DropVoteClears(rows: seq<VoteRow>, target: string, user: string)
    requires OneVotePerUser(rows)
    ensures var rows' := DropVoteRows(rows, target, user);
      OneVotePerUser(rows') && !HasVote(rows', target, user) && CurrentValue(rows', target, user) == 0
  {
    var i := FindVote(rows, target, user);
    var rows' := DropVoteRows(rows, target, user);
    if i < |rows| {
      assert forall j :: 0 <= j < |rows'| ==> rows'[j] == if j < i then rows[j] else rows[j + 1];
      forall j | 0 <= j < |rows'| ensures !(rows'[j].targetId == target && rows'[j].userId == user) {
        if j >= i {
          assert rows'[j] == rows[j + 1];
        }
      }
    }
  }

  /** After zeroing, the user's row stays and holds 0. */
  lemma ZeroVoteKeepsRow(rows: seq<VoteRow>, target: string, user: string, now: int)
    requires OneVotePerUser(rows) && HasVote(rows, target, user)
    ensures var rows' := ZeroVoteRows(rows, target, user, now);
      OneVotePerUser(rows') && HasVote(rows', target, user) && CurrentValue(rows', target, user) == 0
      && |rows'| == |rows|
  {
    var i := FindVote(rows, target, user);
    var rows' := ZeroVoteRows(rows, target, user, now);
    assert forall j :: 0 <= j < i ==> rows'[j] == rows[j];
    FindVoteAt(rows', target, user, i);
  }
}
