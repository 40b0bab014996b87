/** The entry-vote handlers: `vote`, `resetVote`, `removeVote` and `getVote` over the
    vote table and the entries' `score` column. The database is the two fields of
    `EntryVoteStore`: the vote rows, and the score of every existing entry keyed by
    entry id. The session is an optional user id; the new row id and the clock are
    parameters. */
module EntryVotes {
  import opened Wrappers
  import opened Votes

  /** The errors these handlers can raise: no session (the protected procedures), and
      a rejected input (the vote value schema). */
  datatype VoteError = Unauthorized | BadRequest

  /** The success acknowledgements. */
  datatype Ack = Done | NoVoteToReset | VoteResetDone

  /** The database seen by the handlers. */
  datatype VoteDb = VoteDb(votes: seq<VoteRow>, scores: map<string, int>)

  /** The invariant the schema documents: an existing entry's score is the sum of its
      vote values; and each user has at most one vote per entry. */
  ghost predicate Tallied(db: VoteDb) {
    && OneVotePerUser(db.votes)
    && forall e :: e in db.scores ==> db.scores[e] == VoteSum(db.votes, e)
  }

  /** Adds `delta` to the score of `entryId` when that entry exists. */
  function AddToScore(scores: map<string, int>, entryId: string, delta: int): (scores': map<string, int>)
    ensures scores'.Keys == scores.Keys
    ensures forall e :: e in scores ==> scores'[e] == scores[e] + (if e == entryId then delta else 0)
  {
    if entryId in scores then scores[entryId := scores[entryId] + delta] else scores
  }

  /** `vote`: without a session, Unauthorized; a value other than 1 or -1, BadRequest;
      otherwise the stored row is updated (and the score moved by the difference when
      it is non-zero) or a new row is inserted (and the score moved by the value). */
  function VoteStep(db: VoteDb, session: Option<string>, entryId: string, value: int, newId: string, now: int): (VoteDb, Result<Ack, VoteError>) {
    if session.None? then (db, Err(Unauthorized))
    else if !IsVoteValue(value) then (db, Err(BadRequest))
    else
      var user := session.value;
      var i := FindVote(db.votes, entryId, user);
      var votes' := CastVoteRows(db.votes, entryId, user, value, newId, now);
      if i < |db.votes| then
        var scoreDiff := value - db.votes[i].value;
        if scoreDiff != 0 then (VoteDb(votes', AddToScore(db.scores, entryId, scoreDiff)), Ok(Done))
        else (VoteDb(votes', db.scores), Ok(Done))
      else (VoteDb(votes', AddToScore(db.scores, entryId, value)), Ok(Done))
  }

  /** `resetVote`: deletes the user's row and subtracts its value from the score; with
      no row, nothing changes. */
  function ResetVoteStep(db: VoteDb, session: Option<string>, entryId: string): (VoteDb, Result<Ack, VoteError>) {
    if session.None? then (db, Err(Unauthorized))
    else
      var user := session.value;
      var i := FindVote(db.votes, entryId, user);
      if i == |db.votes| then (db, Ok(NoVoteToReset))
      else
        var scores' := AddToScore(db.scores, entryId, -db.votes[i].value);
        (VoteDb(DropVoteRows(db.votes, entryId, user), scores'), Ok(VoteResetDone))
  }

  /** `removeVote`: keeps the user's row with value 0 and subtracts the old value from
      the score; with no row, nothing changes. */
  function RemoveVoteStep(db: VoteDb, session: Option<string>, entryId: string, now: int): (VoteDb, Result<Ack, VoteError>) {
    if session.None? then (db, Err(Unauthorized))
    else
      var user := session.value;
      var i := FindVote(db.votes, entryId, user);
      if i == |db.votes| then (db, Ok(Done))
      else
        var scores' := AddToScore(db.scores, entryId, -db.votes[i].value);
        (VoteDb(ZeroVoteRows(db.votes, entryId, user, now), scores'), Ok(Done))
  }

  /** `getVote`'s answer. */
  datatype VoteInfo = VoteInfo(userVote: Option<int>, totalVotes: nat, totalScore: int)

  /** `userVote?.value || null`: no session, no row, or a stored 0 all read as null. */
  function UserVote(votes: seq<VoteRow>, session: Option<string>, entryId: string): (v: Option<int>)
    ensures v.Some? <==> session.Some? && CurrentValue(votes, entryId, session.value) != 0
    ensures v.Some? ==> v.value == CurrentValue(votes, entryId, session.value)
  {
    if session.None? then None
    else
      var i := FindVote(votes, entryId, session.value);
      if i < |votes| && votes[i].value != 0 then Some(votes[i].value) else None
  }

  /** `getVote` as written: `totalVotes` is the scalar `db.$count(entryVote)`, which
      carries no filter and so counts every vote row of every entry. */
  function GetVoteInfoAsWritten(votes: seq<VoteRow>, session: Option<string>, entryId: string): VoteInfo {
    VoteInfo(UserVote(votes, session, entryId), |votes|, VoteSum(votes, entryId))
  }

  /** `getVote` with `totalVotes` counting this entry's rows only. */
  function GetVoteInfo(votes: seq<VoteRow>, session: Option<string>, entryId: string): VoteInfo {
    VoteInfo(UserVote(votes, session, entryId), VoteCount(votes, entryId), VoteSum(votes, entryId))
  }

  /** A vote on one entry by a user who voted on another makes the as-written total
      count that other vote too. */
  lemma TotalVotesCountsOtherEntries()
    ensures var other := VoteRow("v1", "entry-b", "user-1", 1, 0, 0);
      && GetVoteInfoAsWritten([other], Some("user-1"), "entry-a").totalVotes == 1
      && GetVoteInfo([other], Some("user-1"), "entry-a").totalVotes == 0
  {
    var other := VoteRow("v1", "entry-b", "user-1", 1, 0, 0);
    assert [other][..0] == [];
  }

  lemma {:induction false} VoteCountBound(votes: seq<VoteRow>, entryId: string)
    ensures VoteCount(votes, entryId) <= |votes|
    ensures VoteCount(votes, entryId) == |votes| <==> forall k :: 0 <= k < |votes| ==> votes[k].targetId == entryId
  {
    if votes != [] {
      VoteCountBound(votes[..|votes| - 1], entryId);
    }
  }

  /** The corrected total counts exactly this entry's rows: it agrees with the
      as-written total precisely when every row in the table is on this entry. */
  lemma GetVoteInfoSpec(votes: seq<VoteRow>, session: Option<string>, entryId: string)
    ensures GetVoteInfo(votes, session, entryId).totalVotes <= GetVoteInfoAsWritten(votes, session, entryId).totalVotes
    ensures GetVoteInfo(votes, session, entryId).totalVotes == GetVoteInfoAsWritten(votes, session, entryId).totalVotes
      <==> forall k :: 0 <= k < |votes| ==> votes[k].targetId == entryId
    ensures GetVoteInfo(votes, session, entryId).totalScore == VoteSum(votes, entryId)
  {
    VoteCountBound(votes, entryId);
  }

  /** Moving the vote sum of `entryId` by `delta` and its score by the same amount
      keeps every existing entry's score equal to its vote sum. */
  lemma AddToScoreTallied(db: VoteDb, votes': seq<VoteRow>, entryId: string, delta: int)
    requires Tallied(db) && OneVotePerUser(votes')
    requires forall e :: VoteSum(votes', e) == VoteSum(db.votes, e) + (if e == entryId then delta else 0)
    ensures Tallied(VoteDb(votes', AddToScore(db.scores, entryId, delta)))
  {
  }

  /** A successful `vote` writes the new rows and moves the score by the new value
      minus the stored one; skipping the update when that difference is 0 is the
      same as adding 0. */
  lemma VoteStepOk(db: VoteDb, user: string, entryId: string, value: int, newId: string, now: int)
    requires IsVoteValue(value)
    ensures VoteStep(db, Some(user), entryId, value, newId, now) ==
      (VoteDb(CastVoteRows(db.votes, entryId, user, value, newId, now),
              AddToScore(db.scores, entryId, value - CurrentValue(db.votes, entryId, user))), Ok(Done))
  {
    if entryId in db.scores {
      assert db.scores[entryId := db.scores[entryId] + 0] == db.scores;
    }
  }

  /** `vote` keeps every existing entry's score equal to its vote sum. On success the
      user's stored vote is the new value and the entry's score moves by the new
      value minus the previously stored one (0 when there was none); no other entry's
      score changes and no entry appears or disappears. */
  lemma VoteSpec(db: VoteDb, session: Option<string>, entryId: string, value: int, newId: string, now: int)
    requires Tallied(db)
    ensures var (db', r) := VoteStep(db, session, entryId, value, newId, now);
      && Tallied(db')
      && db'.scores.Keys == db.scores.Keys
      && (r.Err? <==> session.None? || !IsVoteValue(value))
      && (r.Err? ==> db' == db)
      && (r.Ok? ==> CurrentValue(db'.votes, entryId, session.value) == value)
      && (r.Ok? && entryId in db.scores ==>
            db'.scores[entryId] == db.scores[entryId] - CurrentValue(db.votes, entryId, session.value) + value)
      && (forall e :: e in db.scores && e != entryId ==> db'.scores[e] == db.scores[e])
  {
    if session.Some? && IsVoteValue(value) {
      var user := session.value;
      var delta := value - CurrentValue(db.votes, entryId, user);
      var votes' := CastVoteRows(db.votes, entryId, user, value, newId, now);
      VoteStepOk(db, user, entryId, value, newId, now);
      CastVoteStores(db.votes, entryId, user, value, newId, now);
      forall e ensures VoteSum(votes', e) == VoteSum(db.votes, e) + (if e == entryId then delta else 0) {
        CastVoteSum(db.votes, entryId, user, value, newId, now, e);
      }
      AddToScoreTallied(db, votes', entryId, delta);
    }
  }

  /** `resetVote` keeps the tally. On success the user has no vote left on the entry
      and its score has dropped by the removed value; with no vote nothing changes. */
  lemma ResetVoteSpec(db: VoteDb, session: Option<string>, entryId: string)
    requires Tallied(db)
    ensures var (db', r) := ResetVoteStep(db, session, entryId);
      && Tallied(db')
      && db'.scores.Keys == db.scores.Keys
      && (r.Err? <==> session.None?)
      && (r == Ok(NoVoteToReset) <==> session.Some? && !HasVote(db.votes, entryId, session.value))
      && (r == Ok(NoVoteToReset) || r.Err? ==> db' == db)
      && (r.Ok? ==> !HasVote(db'.votes, entryId, session.value))
      && (r.Ok? && entryId in db.scores ==>
            db'.scores[entryId] == db.scores[entryId] - CurrentValue(db.votes, entryId, session.value))
      && (forall e :: e in db.scores && e != entryId ==> db'.scores[e] == db.scores[e])
  {
    if session.Some? {
      var user := session.value;
      DropVoteClears(db.votes, entryId, user);
      if HasVote(db.votes, entryId, user) {
        var delta := -CurrentValue(db.votes, entryId, user);
        var votes' := DropVoteRows(db.votes, entryId, user);
        forall e ensures VoteSum(votes', e) == VoteSum(db.votes, e) + (if e == entryId then delta else 0) {
          DropVoteSum(db.votes, entryId, user, e);
        }
        AddToScoreTallied(db, votes', entryId, delta);
      }
    }
  }

  /** `removeVote` keeps the tally. On success with a stored vote the row stays with
      value 0 and the score drops by the old value, so a later vote adds its full
      value back; with no vote nothing changes. */
  lemma RemoveVoteSpec(db: VoteDb, session: Option<string>, entryId: string, now: int)
    requires Tallied(db)
    ensures var (db', r) := RemoveVoteStep(db, session, entryId, now);
      && Tallied(db')
      && db'.scores.Keys == db.scores.Keys
      && (r.Err? <==> session.None?)
      && (session.None? || !HasVote(db.votes, entryId, session.value) ==> db' == db)
      && (session.Some? && HasVote(db.votes, entryId, session.value) ==>
            HasVote(db'.votes, entryId, session.value) && CurrentValue(db'.votes, entryId, session.value) == 0)
      && (r.Ok? && entryId in db.scores ==>
            db'.scores[entryId] == db.scores[entryId] - CurrentValue(db.votes, entryId, session.value))
      && (forall e :: e in db.scores && e != entryId ==> db'.scores[e] == db.scores[e])
  {
    if session.Some? && HasVote(db.votes, entryId, session.value) {
      var user := session.value;
      var delta := -CurrentValue(db.votes, entryId, user);
      var votes' := ZeroVoteRows(db.votes, entryId, user, now);
      ZeroVoteKeepsRow(db.votes, entryId, user, now);
      forall e ensures VoteSum(votes', e) == VoteSum(db.votes, e) + (if e == entryId then delta else 0) {
        ZeroVoteSum(db.votes, entryId, user, now, e);
      }
      AddToScoreTallied(db, votes', entryId, delta);
    }
  }

  /** Voting the same value twice has the effect of voting once. */
  lemma VoteIdempotent(db: VoteDb, session: Option<string>, entryId: string, value: int, id1: string, id2: string, t1: int, t2: int)
    requires Tallied(db)
    ensures var db1 := VoteStep(db, session, entryId, value, id1, t1).0;
      VoteStep(db1, session, entryId, value, id2, t2).0.scores == db1.scores
  {
    var db1 := VoteStep(db, session, entryId, value, id1, t1).0;
    VoteSpec(db, session, entryId, value, id1, t1);
    if session.Some? && IsVoteValue(value) {
      assert HasVote(db1.votes, entryId, session.value) by {
        CastVoteStores(db.votes, entryId, session.value, value, id1, t1);
      }
    }
  }

  /** The entry-vote store: the vote table and the scores of the existing entries. */
  class EntryVoteStore {
    var votes: seq<VoteRow>
    var scores: map<string, int>

    ghost predicate Valid()
      reads this
    {
      Tallied(VoteDb(votes, scores))
    }

    constructor(entryIds: set<string>)
      ensures votes == [] && scores == map e | e in entryIds :: 0
      ensures Valid()
    {
      votes := [];
      scores := map e | e in entryIds :: 0;
    }

    /** The `vote` handler. */
    method Vote(session: Option<string>, entryId: string, value: int, newId: string, now: int) returns (r: Result<Ack, VoteError>)
      requires Valid()
      modifies this
      ensures Valid()
      ensures (VoteDb(votes, scores), r) == VoteStep(VoteDb(old(votes), old(scores)), session, entryId, value, newId, now)
    {
      ghost var db := VoteDb(votes, scores);
      VoteSpec(db, session, entryId, value, newId, now);
      if session.None? {
        return Err(Unauthorized);
      }
      if !IsVoteValue(value) {
        return Err(BadRequest);
      }
      var userId := session.value;
      var i := FindVote(votes, entryId, userId);
      ghost var votes' := CastVoteRows(votes, entryId, userId, value, newId, now);
      if i < |votes| {
        var oldValue := votes[i].value;
        votes := votes[i := votes[i].(value := value, updatedAt := now)];
        var scoreDiff := value - oldValue;
        if scoreDiff != 0 {
          if entryId in scores {
            scores := scores[entryId := scores[entryId] + scoreDiff];
          }
        }
      } else {
        votes := votes + [VoteRow(newId, entryId, userId, value, now, now)];
        if entryId in scores {
          scores := scores[entryId := scores[entryId] + value];
        }
      }
      assert votes == votes';
      r := Ok(Done);
      assert (VoteDb(votes, scores), r) == VoteStep(db, session, entryId, value, newId, now);
    }

    /** The `resetVote` handler. */
    method ResetVote(session: Option<string>, entryId: string) returns (r: Result<Ack, VoteError>)
      requires Valid()
      modifies this
      ensures Valid()
      ensures (VoteDb(votes, scores), r) == ResetVoteStep(VoteDb(old(votes), old(scores)), session, entryId)
    {
      ghost var db := VoteDb(votes, scores);
      ResetVoteSpec(db, session, entryId);
      if session.None? {
        return Err(Unauthorized);
      }
      var userId := session.value;
      var i := FindVote(votes, entryId, userId);
      if i == |votes| {
        return Ok(NoVoteToReset);
      }
      if entryId in scores {
        scores := scores[entryId := scores[entryId] - votes[i].value];
      }
      votes := votes[..i] + votes[i + 1..];
      assert votes == DropVoteRows(db.votes, entryId, userId);
      r := Ok(VoteResetDone);
      assert (VoteDb(votes, scores), r) == ResetVoteStep(db, session, entryId);
    }

    /** The `removeVote` handler. */
    method RemoveVote(session: Option<string>, entryId: string, now: int) returns (r: Result<Ack, VoteError>)
      requires Valid()
      modifies this
      ensures Valid()
      ensures (VoteDb(votes, scores), r) == RemoveVoteStep(VoteDb(old(votes), old(scores)), session, entryId, now)
    {
      ghost var db := VoteDb(votes, scores);
      RemoveVoteSpec(db, session, entryId, now);
      if session.None? {
        return Err(Unauthorized);
      }
      var userId := session.value;
      var i := FindVote(votes, entryId, userId);
      if i < |votes| {
        var oldValue := votes[i].value;
        votes := votes[i := votes[i].(value := 0, updatedAt := now)];
        if entryId in scores {
          scores := scores[entryId := scores[entryId] - oldValue];
        }
      }
      assert votes == ZeroVoteRows(db.votes, entryId, userId, now);
      r := Ok(Done);
      assert (VoteDb(votes, scores), r) == RemoveVoteStep(db, session, entryId, now);
    }

    /** The `getVote` handler (public: no session is an anonymous caller). */
    function GetVote(session: Option<string>, entryId: string): (info: VoteInfo)
      reads this
      requires Valid()
      ensures info.userVote.Some? <==> session.Some? && CurrentValue(votes, entryId, session.value) != 0
      ensures info.userVote.Some? ==> info.userVote.value == CurrentValue(votes, entryId, session.value)
      ensures info.totalVotes == VoteCount(votes, entryId)
      ensures info.totalScore == VoteSum(votes, entryId)
      ensures entryId in scores ==> info.totalScore == scores[entryId]
    {
      GetVoteInfo(votes, session, entryId)
    }
  }
}
