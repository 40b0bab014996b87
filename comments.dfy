/** The comment handlers `vote`, `removeVote`, `moderate` and `getByEntry`, over the
    comment table (with its `score` and `moderationStatus` columns) and the
    comment-vote table. Sessions are optional user ids and the permission check is a
    boolean input; row ids and the clock are parameters. */
module Comments {
  import opened Wrappers
  import opened Votes
  import Ranking

  datatype ModerationStatus = Verified | Rejected | Pending

  /** A comment row; `moderationStatus` is `None` until a moderator sets it. */
  datatype Comment = Comment(
    id: string,
    entryId: string,
    userId: string,
    text: string,
    createdAt: int,
    updatedAt: int,
    moderationStatus: Option<ModerationStatus>,
    score: int)

  datatype CommentError = Unauthorized | BadRequest | Forbidden

  datatype CommentDb = CommentDb(comments: seq<Comment>, votes: seq<VoteRow>)

  predicate IdsDistinct(cs: seq<Comment>) {
    forall i, j :: 0 <= i < j < |cs| ==> cs[i].id != cs[j].id
  }

  /** Comment ids are unique, every comment's score is the sum of its vote values, and
      each user has at most one vote per comment. */
  ghost predicate Tallied(db: CommentDb) {
    && IdsDistinct(db.comments)
    && OneVotePerUser(db.votes)
    && forall k :: 0 <= k < |db.comments| ==> db.comments[k].score == VoteSum(db.votes, db.comments[k].id)
  }

  /** The first comment with this id, or the length. */
  function FindComment(cs: seq<Comment>, id: string): (i: nat)
    ensures i <= |cs|
    ensures i < |cs| ==> cs[i].id == id
    ensures forall j :: 0 <= j < i ==> cs[j].id != id
  {
    if cs == [] then 0
    else if cs[0].id == id then 0
    else 1 + FindComment(cs[1..], id)
  }

  /** Reads the comment's score and writes it back moved by `delta` (`update ... where
      id`), when the comment exists. */
  function AddCommentScore(cs: seq<Comment>, id: string, delta: int): (cs': seq<Comment>)
    ensures |cs'| == |cs|
  {
    var i := FindComment(cs, id);
    if i < |cs| then
      var newScore := cs[i].score + delta;
      seq(|cs|, k requires 0 <= k < |cs| => if cs[k].id == id then cs[k].(score := newScore) else cs[k])
    else cs
  }

  /** The comment `vote` handler. */
  function VoteStep(db: CommentDb, session: Option<string>, commentId: string, value: int, newId: string, now: int)
    : (CommentDb, Result<bool, CommentError>)
  {
    if session.None? then (db, Err(Unauthorized))
    else if !IsVoteValue(value) then (db, Err(BadRequest))
    else
      var user := session.value;
      var i := FindVote(db.votes, commentId, user);
      var votes' := CastVoteRows(db.votes, commentId, user, value, newId, now);
      if i < |db.votes| then
        var scoreDiff := value - db.votes[i].value;
        if scoreDiff != 0 then (CommentDb(AddCommentScore(db.comments, commentId, scoreDiff), votes'), Ok(true))
        else (CommentDb(db.comments, votes'), Ok(true))
      else (CommentDb(AddCommentScore(db.comments, commentId, value), votes'), Ok(true))
  }

  /** The comment `removeVote` handler: deletes the row and subtracts its value. */
  function RemoveVoteStep(db: CommentDb, session: Option<string>, commentId: string): (CommentDb, Result<bool, CommentError>) {
    if session.None? then (db, Err(Unauthorized))
    else
      var user := session.value;
      var i := FindVote(db.votes, commentId, user);
      if i < |db.votes| then
        (CommentDb(AddCommentScore(db.comments, commentId, -db.votes[i].value), DropVoteRows(db.votes, commentId, user)), Ok(true))
      else (db, Ok(true))
  }

  /** The input enum of `moderate`. */
  function ParseStatus(s: string): (st: Option<ModerationStatus>)
    ensures st.Some? <==> s == "verified" || s == "rejected" || s == "pending"
  {
    if s == "verified" then Some(Verified)
    else if s == "rejected" then Some(Rejected)
    else if s == "pending" then Some(Pending)
    else None
  }

  /** The comment `moderate` handler: the status must be one of the enum's values and
      the caller must hold the verify permission; every comment with the id then gets
      the status and a new `updatedAt`. */
  function ModerateStep(db: CommentDb, session: Option<string>, canVerify: bool, id: string, status: string, now: int)
    : (CommentDb, Result<bool, CommentError>)
  {
    if session.None? then (db, Err(Unauthorized))
    else if ParseStatus(status).None? then (db, Err(BadRequest))
    else if !canVerify then (db, Err(Forbidden))
    else
      var st := ParseStatus(status).value;
      var cs := db.comments;
      var cs' := seq(|cs|, k requires 0 <= k < |cs| =>
        if cs[k].id == id then cs[k].(moderationStatus := Some(st), updatedAt := now) else cs[k]);
      (CommentDb(cs', db.votes), Ok(true))
  }

  /** Whether `getByEntry` shows comment `c` on `entryId` to `user`: the user's own
      comments, and verified ones. */
  predicate VisibleTo(c: Comment, entryId: string, user: string) {
    c.entryId == entryId && (c.userId == user || c.moderationStatus == Some(Verified))
  }

  function FilterVisible(cs: seq<Comment>, entryId: string, user: string): (r: seq<Comment>)
    ensures forall c :: c in r <==> c in cs && VisibleTo(c, entryId, user)
    ensures |r| <= |cs|
  {
    if cs == [] then []
    else
      var rest := FilterVisible(cs[1..], entryId, user);
      assert forall c :: c in cs <==> c == cs[0] || c in cs[1..];
      if VisibleTo(cs[0], entryId, user) then [cs[0]] + rest else rest
  }

  function CreatedAtKey(c: Comment): real { c.createdAt as real }

  /** The comment `getByEntry` handler: the visible comments, newest first; comments
      created at the same time stay in table order. */
  function GetByEntryStep(cs: seq<Comment>, session: Option<string>, entryId: string): Result<seq<Comment>, CommentError> {
    if session.None? then Err(Unauthorized)
    else Ok(Ranking.SortDesc(FilterVisible(cs, entryId, session.value), CreatedAtKey))
  }

  /** `getByEntry` returns exactly the entry's comments that are the caller's own or
      verified, each once per row, newest first. */
  lemma GetByEntrySpec(cs: seq<Comment>, user: string, entryId: string)
    ensures var r := GetByEntryStep(cs, Some(user), entryId);
      && r.Ok?
      && (forall c :: c in r.value <==> c in cs && c.entryId == entryId && (c.userId == user || c.moderationStatus == Some(Verified)))
      && multiset(r.value) == multiset(FilterVisible(cs, entryId, user))
      && (forall i, j :: 0 <= i < j < |r.value| ==> r.value[i].createdAt >= r.value[j].createdAt)
    ensures GetByEntryStep(cs, None, entryId) == Err(Unauthorized)
  {
    var f := FilterVisible(cs, entryId, user);
    Ranking.SortDescSpec(f, CreatedAtKey);
    var r := Ranking.SortDesc(f, CreatedAtKey);
    forall c ensures c in r <==> c in f {
      assert c in r <==> c in multiset(r);
      assert c in f <==> c in multiset(f);
    }
    forall i, j | 0 <= i < j < |r| ensures r[i].createdAt >= r[j].createdAt {
      assert CreatedAtKey(r[i]) >= CreatedAtKey(r[j]);
    }
  }

  lemma AddCommentScoreEffect(cs: seq<Comment>, id: string, delta: int)
    requires IdsDistinct(cs)
    ensures var cs' := AddCommentScore(cs, id, delta);
      && IdsDistinct(cs')
      && forall k :: 0 <= k < |cs| ==>
           cs'[k] == cs[k].(score := cs[k].score + (if cs[k].id == id then delta else 0))
  {
    var i := FindComment(cs, id);
    if i < |cs| {
      forall k | 0 <= k < |cs| && cs[k].id == id ensures k == i {
      }
    }
  }

  /** Moving the vote sum of comment `id` by `delta` and its score by the same amount
      keeps every score equal to its vote sum. */
  lemma AddCommentScoreTallied(db: CommentDb, votes': seq<VoteRow>, id: string, delta: int)
    requires Tallied(db) && OneVotePerUser(votes')
    requires forall e :: VoteSum(votes', e) == VoteSum(db.votes, e) + (if e == id then delta else 0)
    ensures Tallied(CommentDb(AddCommentScore(db.comments, id, delta), votes'))
  {
    AddCommentScoreEffect(db.comments, id, delta);
  }

  /** A successful comment vote writes the new rows and moves the score by the new
      value minus the stored one; skipping the update when that difference is 0 is
      the same as adding 0. */
  lemma VoteStepOk(db: CommentDb, user: string, commentId: string, value: int, newId: string, now: int)
    requires IsVoteValue(value) && IdsDistinct(db.comments)
    ensures VoteStep(db, Some(user), commentId, value, newId, now) ==
      (CommentDb(AddCommentScore(db.comments, commentId, value - CurrentValue(db.votes, commentId, user)),
                 CastVoteRows(db.votes, commentId, user, value, newId, now)), Ok(true))
  {
    AddCommentScoreEffect(db.comments, commentId, 0);
    assert AddCommentScore(db.comments, commentId, 0) == db.comments;
  }

  /** A comment vote keeps every score equal to its vote sum. On success the user's
      stored vote is the new value, the voted comment's score moves by the new value
      minus the previously stored one, and nothing else about any comment changes. */
  lemma VoteSpec(db: CommentDb, session: Option<string>, commentId: string, value: int, newId: string, now: int)
    requires Tallied(db)
    ensures var (db', r) := VoteStep(db, session, commentId, value, newId, now);
      && Tallied(db')
      && (r.Err? <==> session.None? || !IsVoteValue(value))
      && (r.Err? ==> db' == db)
      && (r.Ok? ==> CurrentValue(db'.votes, commentId, session.value) == value)
      && |db'.comments| == |db.comments|
      && (r.Ok? ==> forall k :: 0 <= k < |db.comments| ==>
            db'.comments[k] == db.comments[k].(score := db.comments[k].score +
              (if db.comments[k].id == commentId then value - CurrentValue(db.votes, commentId, session.value) else 0)))
  {
    if session.Some? && IsVoteValue(value) {
      var user := session.value;
      var delta := value - CurrentValue(db.votes, commentId, user);
      var votes' := CastVoteRows(db.votes, commentId, user, value, newId, now);
      VoteStepOk(db, user, commentId, value, newId, now);
      CastVoteStores(db.votes, commentId, user, value, newId, now);
      forall e ensures VoteSum(votes', e) == VoteSum(db.votes, e) + (if e == commentId then delta else 0) {
        CastVoteSum(db.votes, commentId, user, value, newId, now, e);
      }
      AddCommentScoreTallied(db, votes', commentId, delta);
      AddCommentScoreEffect(db.comments, commentId, delta);
    }
  }

  /** With a stored vote, `removeVote` deletes the row and subtracts its value. */
  lemma RemoveVoteStepOk(db: CommentDb, user: string, commentId: string)
    requires HasVote(db.votes, commentId, user)
    ensures RemoveVoteStep(db, Some(user), commentId) ==
      (CommentDb(AddCommentScore(db.comments, commentId, -CurrentValue(db.votes, commentId, user)),
                 DropVoteRows(db.votes, commentId, user)), Ok(true))
  {
  }

  /** Removing a comment vote keeps every score equal to its vote sum. With a stored
      vote the row is deleted and the comment's score drops by its value; with none
      nothing changes. */
  lemma RemoveVoteSpec(db: CommentDb, session: Option<string>, commentId: string)
    requires Tallied(db)
    ensures var (db', r) := RemoveVoteStep(db, session, commentId);
      && Tallied(db')
      && (r.Err? <==> session.None?)
      && (session.None? || !HasVote(db.votes, commentId, session.value) ==> db' == db)
      && (r.Ok? ==> !HasVote(db'.votes, commentId, session.value))
      && |db'.comments| == |db.comments|
      && (r.Ok? ==> forall k :: 0 <= k < |db.comments| ==>
            db'.comments[k] == db.comments[k].(score := db.comments[k].score -
              (if db.comments[k].id == commentId then CurrentValue(db.votes, commentId, session.value) else 0)))
  {
    if session.Some? {
      var user := session.value;
      DropVoteClears(db.votes, commentId, user);
      if HasVote(db.votes, commentId, user) {
        var delta := -CurrentValue(db.votes, commentId, user);
        var votes' := DropVoteRows(db.votes, commentId, user);
        RemoveVoteStepOk(db, user, commentId);
        forall e ensures VoteSum(votes', e) == VoteSum(db.votes, e) + (if e == commentId then delta else 0) {
          DropVoteSum(db.votes, commentId, user, e);
        }
        AddCommentScoreTallied(db, votes', commentId, delta);
        RemoveVoteComments(db, user, commentId);
      }
    }
  }

  /** What removing a stored vote does to the comments: the voted comment's score
      drops by the stored value, and nothing else changes. */
  lemma RemoveVoteComments(db: CommentDb, user: string, commentId: string)
    requires IdsDistinct(db.comments) && HasVote(db.votes, commentId, user)
    ensures var db' := RemoveVoteStep(db, Some(user), commentId).0;
      && |db'.comments| == |db.comments|
      && forall k :: 0 <= k < |db.comments| ==>
           db'.comments[k] == db.comments[k].(score := db.comments[k].score -
             (if db.comments[k].id == commentId then CurrentValue(db.votes, commentId, user) else 0))
  {
    RemoveVoteStepOk(db, user, commentId);
    AddCommentScoreEffect(db.comments, commentId, -CurrentValue(db.votes, commentId, user));
  }

  /** `moderate` fails without a session, with a status outside the enum, or without
      the verify permission, changing nothing; otherwise it sets the status and
      `updatedAt` of the comment with that id and touches nothing else, so the tally
      is kept. */
  lemma ModerateSpec(db: CommentDb, session: Option<string>, canVerify: bool, id: string, status: string, now: int)
    requires Tallied(db)
    ensures var (db', r) := ModerateStep(db, session, canVerify, id, status, now);
      && Tallied(db')
      && (r == Err(Unauthorized) <==> session.None?)
      && (r == Err(BadRequest) <==> session.Some? && ParseStatus(status).None?)
      && (r == Err(Forbidden) <==> session.Some? && ParseStatus(status).Some? && !canVerify)
      && (r.Err? ==> db' == db)
      && db'.votes == db.votes && |db'.comments| == |db.comments|
      && (r.Ok? ==> forall k :: 0 <= k < |db.comments| ==>
            db'.comments[k] == if db.comments[k].id == id
              then db.comments[k].(moderationStatus := ParseStatus(status), updatedAt := now)
              else db.comments[k])
  {
  }

  /** The comment store: the comment table and the comment-vote table. */
  class CommentStore {
    var comments: seq<Comment>
    var votes: seq<VoteRow>

    ghost predicate Valid()
      reads this
    {
      Tallied(CommentDb(comments, votes))
    }

    /** A store over existing tables whose scores already match their votes. */
    constructor(cs: seq<Comment>, vs: seq<VoteRow>)
      requires Tallied(CommentDb(cs, vs))
      ensures comments == cs && votes == vs && Valid()
    {
      comments := cs;
      votes := vs;
    }

    /** The comment `vote` handler. */
    method Vote(session: Option<string>, commentId: string, value: int, newId: string, now: int) returns (r: Result<bool, CommentError>)
      requires Valid()
      modifies this
      ensures Valid()
      ensures (CommentDb(comments, votes), r) == VoteStep(CommentDb(old(comments), old(votes)), session, commentId, value, newId, now)
    {
      ghost var db := CommentDb(comments, votes);
      VoteSpec(db, session, commentId, value, newId, now);
      if session.None? {
        return Err(Unauthorized);
      }
      if !IsVoteValue(value) {
        return Err(BadRequest);
      }
      var userId := session.value;
      var i := FindVote(votes, commentId, userId);
      ghost var votes' := CastVoteRows(votes, commentId, userId, value, newId, now);
      if i < |votes| {
        var oldValue := votes[i].value;
        votes := votes[i := votes[i].(value := value, updatedAt := now)];
        var scoreDiff := value - oldValue;
        if scoreDiff != 0 {
          comments := AddCommentScore(comments, commentId, scoreDiff);
        }
      } else {
        votes := votes + [VoteRow(newId, commentId, userId, value, now, now)];
        comments := AddCommentScore(comments, commentId, value);
      }
      assert votes == votes';
      r := Ok(true);
      assert (CommentDb(comments, votes), r) == VoteStep(db, session, commentId, value, newId, now);
    }

    /** The comment `removeVote` handler. */
    method RemoveVote(session: Option<string>, commentId: string) returns (r: Result<bool, CommentError>)
      requires Valid()
      modifies this
      ensures Valid()
      ensures (CommentDb(comments, votes), r) == RemoveVoteStep(CommentDb(old(comments), old(votes)), session, commentId)
    {
      ghost var db := CommentDb(comments, votes);
      RemoveVoteSpec(db, session, commentId);
      if session.None? {
        return Err(Unauthorized);
      }
      var userId := session.value;
      var i := FindVote(votes, commentId, userId);
      if i < |votes| {
        var oldValue := votes[i].value;
        votes := DropVoteRows(votes, commentId, userId);
        comments := AddCommentScore(comments, commentId, -oldValue);
      }
      r := Ok(true);
      assert (CommentDb(comments, votes), r) == RemoveVoteStep(db, session, commentId);
    }

    /** The comment `moderate` handler. */
    method Moderate(session: Option<string>, canVerify: bool, id: string, status: string, now: int) returns (r: Result<bool, CommentError>)
      requires Valid()
      modifies this
      ensures Valid()
      ensures (CommentDb(comments, votes), r) == ModerateStep(CommentDb(old(comments), old(votes)), session, canVerify, id, status, now)
    {
      ModerateSpec(CommentDb(comments, votes), session, canVerify, id, status, now);
      if session.None? {
        return Err(Unauthorized);
      }
      var moderationStatus := ParseStatus(status);
      if moderationStatus.None? {
        return Err(BadRequest);
      }
      if !canVerify {
        return Err(Forbidden);
      }
      var cs := comments;
      comments := seq(|cs|, k requires 0 <= k < |cs| =>
        if cs[k].id == id then cs[k].(moderationStatus := moderationStatus, updatedAt := now) else cs[k]);
      r := Ok(true);
    }

    /** The comment `getByEntry` handler. */
    function GetByEntry(session: Option<string>, entryId: string): (r: Result<seq<Comment>, CommentError>)
      reads this
      ensures r.Ok? <==> session.Some?
      ensures r == GetByEntryStep(comments, session, entryId)
      ensures r.Ok? ==> forall c :: c in r.value <==> c in comments && VisibleTo(c, entryId, session.value)
      ensures r.Ok? ==> multiset(r.value) == multiset(FilterVisible(comments, entryId, session.value))
      ensures r.Ok? ==> forall i, j :: 0 <= i < j < |r.value| ==> r.value[i].createdAt >= r.value[j].createdAt
    {
      var result := GetByEntryStep(comments, session, entryId);
      if session.Some? then
        GetByEntrySpec(comments, session.value, entryId);
        result
      else result
    }
  }
}
