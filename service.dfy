/**
 The pull-request lifecycle engine: creating a pull request with reviewers
 picked from the author's team, merging it (OPEN to MERGED, idempotent), and
 swapping one reviewer for an eligible teammate of theirs. Each operation runs
 its guards in a fixed order, and every failing guard leaves the store as it
 was.
 */
module Service {

  import opened Seqs
  import opened Models
  import opened Repo
  import opened Selection

  /** The domain errors of the engine. Failures of the database itself are
      not part of this model. */
  datatype Error =
    | PRExists
    | PRNotFound
    | PRMerged
    | ReviewerNotAssigned
    | NoCandidate
    | AuthorNotFound
    | UserNotFound

  datatype Result<T> = Ok(value: T) | Err(error: Error)

  /** What a successful reassignment returns: the pull request as the caller
      sees it, and the reviewer who came in. */
  datatype Reassignment = Reassignment(pr: PullRequest, replacedBy: UserId)

  /** How many reviewers a new pull request gets at most. */
  const ReviewersPerPullRequest := 2

  /** Who may review a new pull request: the active members of the author's
      team other than the author. */
  function CreationCandidates(users: seq<User>, author: User): (r: seq<UserId>)
    ensures forall x :: x in r <==>
      && x != author.userId
      && exists u :: u in users && u.userId == x && u.teamName == author.teamName && u.isActive
    ensures UniqueIds(users) ==> NoDuplicates(r)
  {
    var teamUsers := GetActiveUsersByTeam(users, author.teamName);
    IdsMembership(teamUsers);
    CandidatePool(teamUsers, {author.userId})
  }

  /** Who may not replace `oldUserId`: the outgoing reviewer, the author and
      everyone already assigned. */
  function ExclusionSet(pr: PullRequest, oldUserId: UserId): set<UserId>
  {
    {oldUserId, pr.authorId} + set x | x in pr.assignedReviewers
  }

  /** Who may replace `oldUserId`: active members of `team` (the outgoing
      reviewer's team) outside the exclusion set. */
  function ReplacementCandidates(users: seq<User>, pr: PullRequest, oldUserId: UserId, team: TeamName)
    : (r: seq<UserId>)
    ensures forall x :: x in r <==>
      && x != oldUserId && x != pr.authorId && x !in pr.assignedReviewers
      && exists u :: u in users && u.userId == x && u.teamName == team && u.isActive
    ensures UniqueIds(users) ==> NoDuplicates(r)
  {
    var teamUsers := GetActiveUsersByTeam(users, team);
    IdsMembership(teamUsers);
    CandidatePool(teamUsers, ExclusionSet(pr, oldUserId))
  }

  lemma IdsMembership(us: seq<User>)
    ensures forall x :: x in Ids(us) <==> exists u :: u in us && u.userId == x
  {
    forall x | x in Ids(us) ensures exists u :: u in us && u.userId == x {
      var i :| 0 <= i < |us| && Ids(us)[i] == x;
      assert us[i] in us;
    }
    forall x | exists u :: u in us && u.userId == x ensures x in Ids(us) {
      var u :| u in us && u.userId == x;
      var i :| 0 <= i < |us| && us[i] == u;
      assert Ids(us)[i] == x;
    }
  }

  /** The position of the first occurrence of `x`, which the in-place
      replacement loop overwrites. */
  function FirstIndex(s: seq<UserId>, x: UserId): (i: nat)
    requires x in s
    ensures i < |s| && s[i] == x && x !in s[..i]
  {
    if s[0] == x then 0 else 1 + FirstIndex(s[1..], x)
  }

  /** The reviewer list handed back to the caller (the first occurrence of
      the outgoing reviewer overwritten in place) holds the same reviewers as
      the list the store keeps (the outgoing reviewer's row deleted, the
      incoming one's inserted). */
  lemma ReplacedListsAgree(s: seq<UserId>, x: UserId, y: UserId)
    requires x in s && NoDuplicates(s)
    ensures multiset(s[FirstIndex(s, x) := y]) == multiset(RemoveAll(s, x) + [y])
  {
    var i := FirstIndex(s, x);
    NoDuplicatesCount(s, x);
    assert multiset(s)[x] == 1;
    assert multiset(s[i := y]) == multiset(s) - multiset{x} + multiset{y};
    assert multiset(s)[x := 0] == multiset(s) - multiset{x};
  }

  /** The scan in ReassignReviewer: whether `oldUserId` is among the reviewers. */
  method ContainsReviewer(reviewers: seq<UserId>, oldUserId: UserId) returns (isAssigned: bool)
    ensures isAssigned <==> oldUserId in reviewers
  {
    isAssigned := false;
    for i := 0 to |reviewers|
      invariant !isAssigned && oldUserId !in reviewers[..i]
    {
      assert reviewers[..i + 1] == reviewers[..i] + [reviewers[i]];
      if reviewers[i] == oldUserId {
        isAssigned := true;
        break;
      }
    }
    assert reviewers[..|reviewers|] == reviewers;
  }

  /** The exclusion set, built one reviewer at a time. */
  method BuildExclusionSet(pr: PullRequest, oldUserId: UserId) returns (exclude: set<UserId>)
    ensures exclude == ExclusionSet(pr, oldUserId)
    ensures oldUserId in exclude && pr.authorId in exclude
    ensures forall x :: x in pr.assignedReviewers ==> x in exclude
  {
    exclude := {oldUserId, pr.authorId};
    for i := 0 to |pr.assignedReviewers|
      invariant exclude == {oldUserId, pr.authorId} + set x | x in pr.assignedReviewers[..i]
    {
      assert pr.assignedReviewers[..i + 1] == pr.assignedReviewers[..i] + [pr.assignedReviewers[i]];
      exclude := exclude + {pr.assignedReviewers[i]};
    }
    assert pr.assignedReviewers[..|pr.assignedReviewers|] == pr.assignedReviewers;
  }

  /** The in-place overwrite in ReassignReviewer: the first occurrence of
      `oldUserId` becomes `newUserId`, nothing else moves; a list without
      `oldUserId` is left as it is. */
  method ReplaceFirst(reviewers: seq<UserId>, oldUserId: UserId, newUserId: UserId)
    returns (r: seq<UserId>)
    ensures |r| == |reviewers|
    ensures oldUserId in reviewers ==> r == reviewers[FirstIndex(reviewers, oldUserId) := newUserId]
    ensures oldUserId !in reviewers ==> r == reviewers
  {
    r := reviewers;
    for i := 0 to |r|
      invariant r == reviewers
      invariant oldUserId !in reviewers[..i]
    {
      assert reviewers[..i + 1] == reviewers[..i] + [reviewers[i]];
      if r[i] == oldUserId {
        r := r[i := newUserId];
        break;
      }
    }
  }

  /** What is taken from a pool that leaves someone out leaves them out too. */
  lemma SelectionExcludes(selected: seq<UserId>, pool: seq<UserId>, excluded: UserId)
    requires multiset(selected) <= multiset(pool) && excluded !in pool
    ensures excluded !in selected
    ensures forall x :: x in selected ==> x in pool
  {
    forall x | x in selected ensures x in pool {
      assert multiset(selected)[x] > 0;
    }
  }

  /** Storing a well-formed record under its own id keeps the store's
      records well formed. */
  lemma AddKeepsWellFormedRecords(prs: map<PullRequestId, PullRequest>, pr: PullRequest)
    requires WellFormedRecords(prs) && WellFormed(pr)
    ensures WellFormedRecords(prs[pr.pullRequestId := pr])
  {
  }

  /** Swapping a reviewer for one who is neither the author nor assigned
      keeps a record well formed. */
  lemma SwapKeepsWellFormed(pr: PullRequest, oldUserId: UserId, newUserId: UserId)
    requires WellFormed(pr)
    requires newUserId != pr.authorId && newUserId !in pr.assignedReviewers
    ensures WellFormed(pr.(assignedReviewers := RemoveAll(pr.assignedReviewers, oldUserId) + [newUserId]))
  {
    var kept := RemoveAll(pr.assignedReviewers, oldUserId);
    assert multiset(kept) <= multiset(pr.assignedReviewers);
    SubMultisetNoDuplicates(kept, pr.assignedReviewers);
    assert multiset(kept)[pr.authorId] == 0 && multiset(kept)[newUserId] == 0;
  }

  class PullRequestService {
    const db: Store

    constructor (db: Store)
      ensures this.db == db
    {
      this.db := db;
    }

    /** CreatePullRequest: fails with PRExists on a taken id (before the
        author is looked up), then with AuthorNotFound; otherwise stores and
        returns an OPEN pull request stamped `now` whose reviewers are
        min(#candidates, 2) distinct creation candidates, all of them when
        they number at most two. */
    method CreatePullRequest(id: PullRequestId, name: string, authorId: UserId, now: Timestamp)
      returns (r: Result<PullRequest>)
      requires db.Valid()
      modifies db
      ensures db.Valid() && db.users == old(db.users)
      ensures id in old(db.prs) ==> r == Err(PRExists)
      ensures id !in old(db.prs) && GetUserById(db.users, authorId).None? ==> r == Err(AuthorNotFound)
      ensures r.Err? ==> db.prs == old(db.prs)
      ensures r.Ok? <==> id !in old(db.prs) && GetUserById(db.users, authorId).Some?
      ensures r.Ok? ==>
        var pr := r.value;
        var candidates := CreationCandidates(db.users, GetUserById(db.users, authorId).value);
        && db.prs == old(db.prs)[id := pr]
        && pr.pullRequestId == id && pr.pullRequestName == name && pr.authorId == authorId
        && pr.status == Open && pr.createdAt == now && pr.mergedAt == None
        && |pr.assignedReviewers| == Min(|candidates|, ReviewersPerPullRequest)
        && multiset(pr.assignedReviewers) <= multiset(candidates)
        && (|candidates| <= ReviewersPerPullRequest ==> pr.assignedReviewers == candidates)
        && authorId !in pr.assignedReviewers
    {
      var existing := db.GetPullRequestWithReviewers(id);
      if existing.Some? {
        return Err(PRExists);
      }
      var author := GetUserById(db.users, authorId);
      if author.None? {
        return Err(AuthorNotFound);
      }
      var teamUsers := GetActiveUsersByTeam(db.users, author.value.teamName);
      var candidateIds := CollectCandidates(teamUsers, {author.value.userId});
      assert candidateIds == CreationCandidates(db.users, author.value);

      var selected := SelectRandomReviewers(candidateIds, ReviewersPerPullRequest);
      SelectionExcludes(selected, candidateIds, authorId);
      ghost var before := db.prs;
      var created := db.CreatePullRequest(id, name, authorId, selected, now);
      AddKeepsWellFormedRecords(before, created.value);
      r := Ok(created.value);
    }

    /** MergePullRequest: fails with PRNotFound on an unknown id; returns an
        already merged pull request exactly as stored, without writing;
        otherwise marks it MERGED at `now`, every other field unchanged. */
    method MergePullRequest(id: PullRequestId, now: Timestamp) returns (r: Result<PullRequest>)
      requires db.Valid()
      modifies db
      ensures db.Valid() && db.users == old(db.users)
      ensures id !in old(db.prs) ==> r == Err(PRNotFound) && db.prs == old(db.prs)
      ensures id in old(db.prs) && old(db.prs)[id].status == Merged ==>
        r == Ok(old(db.prs)[id]) && db.prs == old(db.prs)
      ensures id in old(db.prs) && old(db.prs)[id].status == Open ==>
        && r == Ok(old(db.prs)[id].(status := Merged, mergedAt := Some(now)))
        && db.prs == old(db.prs)[id := r.value]
    {
      var pr := db.GetPullRequestWithReviewers(id);
      if pr.None? {
        return Err(PRNotFound);
      }
      if pr.value.status == Merged {
        return Ok(pr.value);
      }
      var mergedAt := db.MarkPullRequestMerged(id, now);
      r := Ok(pr.value.(status := Merged, mergedAt := mergedAt));
    }

    /** ReassignReviewer: the guards fail, in this order, with PRNotFound,
        PRMerged, ReviewerNotAssigned, UserNotFound and NoCandidate, leaving
        the store untouched; when every guard passes and a candidate exists
        it succeeds. On success the incoming reviewer is an active
        member of the outgoing reviewer's team who is neither the author nor
        already assigned; the caller gets the list with the outgoing
        reviewer's first occurrence overwritten in place, and the store keeps
        the same reviewers. */
    method ReassignReviewer(id: PullRequestId, oldUserId: UserId) returns (r: Result<Reassignment>)
      requires db.Valid()
      modifies db
      ensures db.Valid() && db.users == old(db.users)
      ensures id !in old(db.prs) ==> r == Err(PRNotFound)
      ensures id in old(db.prs) && old(db.prs)[id].status == Merged ==> r == Err(PRMerged)
      ensures (&& id in old(db.prs) && old(db.prs)[id].status == Open
               && oldUserId !in old(db.prs)[id].assignedReviewers)
              ==> r == Err(ReviewerNotAssigned)
      ensures (&& id in old(db.prs) && old(db.prs)[id].status == Open
               && oldUserId in old(db.prs)[id].assignedReviewers
               && GetUserById(db.users, oldUserId).None?)
              ==> r == Err(UserNotFound)
      ensures (&& id in old(db.prs) && old(db.prs)[id].status == Open
               && oldUserId in old(db.prs)[id].assignedReviewers
               && GetUserById(db.users, oldUserId).Some?
               && ReplacementCandidates(db.users, old(db.prs)[id], oldUserId,
                                        GetUserById(db.users, oldUserId).value.teamName) == [])
              ==> r == Err(NoCandidate)
      ensures r.Err? ==> db.prs == old(db.prs)
      ensures r.Ok? <==>
        && id in old(db.prs) && old(db.prs)[id].status == Open
        && oldUserId in old(db.prs)[id].assignedReviewers
        && GetUserById(db.users, oldUserId).Some?
        && ReplacementCandidates(db.users, old(db.prs)[id], oldUserId,
                                 GetUserById(db.users, oldUserId).value.teamName) != []
      ensures r.Ok? ==>
        var pr := old(db.prs)[id];
        var team := GetUserById(db.users, oldUserId).value.teamName;
        var newId := r.value.replacedBy;
        && newId in ReplacementCandidates(db.users, pr, oldUserId, team)
        && newId != oldUserId && newId != pr.authorId && newId !in pr.assignedReviewers
        && (exists u :: u in db.users && u.userId == newId && u.teamName == team && u.isActive)
        && r.value.pr == pr.(assignedReviewers :=
                               pr.assignedReviewers[FirstIndex(pr.assignedReviewers, oldUserId) := newId])
        && db.prs == old(db.prs)[id := pr.(assignedReviewers :=
                                           RemoveAll(pr.assignedReviewers, oldUserId) + [newId])]
        && multiset(r.value.pr.assignedReviewers) == multiset(db.prs[id].assignedReviewers)
    {
      var found := db.GetPullRequestWithReviewers(id);
      if found.None? {
        return Err(PRNotFound);
      }
      var pr := found.value;
      if pr.status == Merged {
        return Err(PRMerged);
      }

      var isAssigned := ContainsReviewer(pr.assignedReviewers, oldUserId);
      if !isAssigned {
        return Err(ReviewerNotAssigned);
      }

      var user := GetUserById(db.users, oldUserId);
      if user.None? {
        return Err(UserNotFound);
      }

      var teamUsers := GetActiveUsersByTeam(db.users, user.value.teamName);
      var exclude := BuildExclusionSet(pr, oldUserId);
      var candidates := CollectCandidates(teamUsers, exclude);
      assert candidates == ReplacementCandidates(db.users, pr, oldUserId, user.value.teamName);
      if |candidates| == 0 {
        return Err(NoCandidate);
      }

      var k :| 0 <= k < |candidates|;
      var newReviewerId := candidates[k];

      SwapKeepsWellFormed(pr, oldUserId, newReviewerId);
      ghost var before := db.prs;
      db.ReplacePullRequestReviewer(id, oldUserId, newReviewerId);
      AddKeepsWellFormedRecords(before, db.prs[id]);

      var reviewers := ReplaceFirst(pr.assignedReviewers, oldUserId, newReviewerId);
      r := Ok(Reassignment(pr.(assignedReviewers := reviewers), newReviewerId));
      ReplacedListsAgree(pr.assignedReviewers, oldUserId, newReviewerId);
    }
  }

  /** Merging the same pull request twice: the second call returns exactly
      what the first returned, merge timestamp included, and writes nothing. */
  method MergeTwice(service: PullRequestService, id: PullRequestId, first: Timestamp, second: Timestamp)
    returns (r1: Result<PullRequest>, r2: Result<PullRequest>)
    requires service.db.Valid()
    modifies service.db
    ensures service.db.Valid()
    ensures r1.Ok? ==> r1.value.status == Merged && r1.value.mergedAt.Some? && r2 == r1
    ensures r1.Err? ==> r1 == r2 == Err(PRNotFound) && service.db.prs == old(service.db.prs)
    ensures id in old(service.db.prs) && old(service.db.prs)[id].status == Open ==>
      r1 == Ok(old(service.db.prs)[id].(status := Merged, mergedAt := Some(first)))
    ensures r1.Ok? ==> service.db.prs == old(service.db.prs)[id := r1.value]
  {
    r1 := service.MergePullRequest(id, first);
    ghost var between := service.db.prs;
    r2 := service.MergePullRequest(id, second);
    assert service.db.prs == between;
  }
}
