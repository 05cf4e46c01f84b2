/**
 The storage the lifecycle engine reads and writes: the `users` table (only
 read here) and the `pull_requests` / `pull_request_reviewers` tables, kept
 together as one record per pull request. Each operation states the effect of
 its SQL statement on that abstract state.
 */
module Repo {

  import opened Seqs
  import opened Models

  /** `SELECT ... FROM users WHERE id = $1`: the row with that id, if any. */
  function GetUserById(users: seq<User>, userId: UserId): (r: Option<User>)
    ensures r.Some? <==> userId in Ids(users)
    ensures r.Some? ==> r.value in users && r.value.userId == userId
  {
    if users == [] then None
    else
      assert Ids(users) == [users[0].userId] + Ids(users[1..]);
      if users[0].userId == userId then Some(users[0])
      else GetUserById(users[1..], userId)
  }

  /** `SELECT ... FROM users WHERE team_name = $1 AND is_active = TRUE`: the
      active rows of the team, in row order. */
  function GetActiveUsersByTeam(users: seq<User>, team: TeamName): (r: seq<User>)
    ensures forall u :: u in r <==> u in users && u.teamName == team && u.isActive
    ensures |r| <= |users|
    ensures UniqueIds(users) ==> UniqueIds(r)
  {
    if users == [] then []
    else
      var init := users[..|users| - 1];
      var u := users[|users| - 1];
      var rest := GetActiveUsersByTeam(init, team);
      assert users == init + [u];
      assert UniqueIds(users) ==> forall v :: v in init ==> v.userId != u.userId;
      if u.teamName == team && u.isActive then rest + [u] else rest
  }

  /** `DELETE FROM pull_request_reviewers WHERE ... reviewer_id = $2`: every
      occurrence of `x` goes, everything else stays in order. */
  function RemoveAll(s: seq<UserId>, x: UserId): (r: seq<UserId>)
    ensures multiset(r) == multiset(s)[x := 0]
    ensures x !in r
  {
    if s == [] then []
    else
      assert s == [s[0]] + s[1..];
      (if s[0] == x then [] else [s[0]]) + RemoveAll(s[1..], x)
  }

  /** Every record is stored under its own id and is well formed. */
  predicate WellFormedRecords(prs: map<PullRequestId, PullRequest>)
  {
    forall id :: id in prs ==> prs[id].pullRequestId == id && WellFormed(prs[id])
  }

  class Store {
    var prs: map<PullRequestId, PullRequest>
    var users: seq<User>

    /** The table constraints (primary keys) and the record invariant that
        every engine operation maintains. */
    ghost predicate Valid()
      reads this
    {
      && UniqueIds(users)
      && WellFormedRecords(prs)
    }

    constructor (users: seq<User>)
      requires UniqueIds(users)
      ensures Valid() && this.users == users && prs == map[]
    {
      this.users := users;
      prs := map[];
    }

    /** The pull request row joined with its reviewer rows, or None when no
        row has that id. */
    function GetPullRequestWithReviewers(id: PullRequestId): (r: Option<PullRequest>)
      reads this
      requires Valid()
      ensures r.Some? <==> id in prs
      ensures r.Some? ==> r.value == prs[id] && r.value.pullRequestId == id && WellFormed(r.value)
    {
      if id in prs then Some(prs[id]) else None
    }

    /** One transaction inserting the pull request as OPEN, stamped `now`,
        and one reviewer row per selected reviewer; the primary key rejects
        an id already present (None) and nothing is written then. */
    method CreatePullRequest(id: PullRequestId, name: string, authorId: UserId,
                             reviewerIds: seq<UserId>, now: Timestamp)
      returns (r: Option<PullRequest>)
      modifies this
      ensures users == old(users)
      ensures id in old(prs) ==> r == None && prs == old(prs)
      ensures id !in old(prs) ==>
        && r == Some(PullRequest(id, name, authorId, Open, reviewerIds, now, None))
        && prs == old(prs)[id := r.value]
    {
      if id in prs {
        r := None;
      } else {
        var pr := PullRequest(id, name, authorId, Open, reviewerIds, now, None);
        prs := prs[id := pr];
        r := Some(pr);
      }
    }

    /** `UPDATE ... SET status = 'MERGED', merged_at = NOW() ... RETURNING
        merged_at`: None when no row has that id. */
    method MarkPullRequestMerged(id: PullRequestId, now: Timestamp) returns (r: Option<Timestamp>)
      modifies this
      ensures users == old(users)
      ensures id !in old(prs) ==> r == None && prs == old(prs)
      ensures id in old(prs) ==>
        && r == Some(now)
        && prs == old(prs)[id := old(prs)[id].(status := Merged, mergedAt := Some(now))]
    {
      if id in prs {
        prs := prs[id := prs[id].(status := Merged, mergedAt := Some(now))];
        r := Some(now);
      } else {
        r := None;
      }
    }

    /** One transaction deleting the reviewer rows of `oldReviewerId` and
        inserting one for `newReviewerId`. Reviewer rows of a pull request
        that does not exist are not part of this state. */
    method ReplacePullRequestReviewer(prId: PullRequestId, oldReviewerId: UserId, newReviewerId: UserId)
      modifies this
      ensures users == old(users)
      ensures prId !in old(prs) ==> prs == old(prs)
      ensures prId in old(prs) ==>
        var pr := old(prs)[prId];
        prs == old(prs)[prId := pr.(assignedReviewers :=
                                     RemoveAll(pr.assignedReviewers, oldReviewerId) + [newReviewerId])]
    {
      if prId in prs {
        var pr := prs[prId];
        prs := prs[prId := pr.(assignedReviewers :=
                               RemoveAll(pr.assignedReviewers, oldReviewerId) + [newReviewerId])];
      }
    }
  }
}
