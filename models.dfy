/**
 The records the reviewer-assignment engine works on: users (one row of the
 `users` table each) and pull requests together with their assigned reviewers.
 */
module Models {

  import opened Seqs

  type UserId = string
  type PullRequestId = string
  type TeamName = string

  /** A point in time as the database reports it (`created_at`, `merged_at`);
      only equality of timestamps matters to the engine. */
  type Timestamp = int

  datatype Option<T> = None | Some(value: T)

  datatype User = User(userId: UserId, username: string, teamName: TeamName, isActive: bool)

  /** The two values the engine ever writes to `pull_requests.status`. */
  datatype Status = Open | Merged

  datatype PullRequest = PullRequest(
    pullRequestId: PullRequestId,
    pullRequestName: string,
    authorId: UserId,
    status: Status,
    assignedReviewers: seq<UserId>,
    createdAt: Timestamp,
    mergedAt: Option<Timestamp>)

  /** The user ids of a sequence of rows, in row order. */
  function Ids(us: seq<User>): seq<UserId>
  {
    seq(|us|, i requires 0 <= i < |us| => us[i].userId)
  }

  /** `users.id` is the primary key: no two rows share an id. */
  predicate UniqueIds(us: seq<User>)
  {
    forall i, j :: 0 <= i < j < |us| ==> us[i].userId != us[j].userId
  }

  /** What every stored pull request satisfies at all times: its author is not
      among its reviewers, no reviewer is listed twice, and it carries a merge
      timestamp exactly when it is merged. */
  predicate WellFormed(pr: PullRequest)
  {
    && pr.authorId !in pr.assignedReviewers
    && NoDuplicates(pr.assignedReviewers)
    && (pr.status == Merged <==> pr.mergedAt.Some?)
  }

  function Min(a: int, b: int): int
  {
    if a <= b then a else b
  }
}
