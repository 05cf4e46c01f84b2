# Reviewer assignment and pull-request lifecycle, modelled in Dafny

This project models the decision core of a small pull-request service. Users
belong to teams and may be active or inactive. A new pull request gets up to
two reviewers, picked at random from the active members of the author's team
other than the author. A pull request goes from OPEN to MERGED, and merging a
merged pull request returns it untouched. While it is OPEN, one assigned
reviewer can be swapped for a random active teammate of that reviewer who is
neither the author nor already assigned.

Files (one module each, in dependency order):

- `seqs.dfy` (`Seqs`): duplicate-free sequences and their multiset counts.
- `models.dfy` (`Models`): users, pull-request records, the record invariant
  `WellFormed`. The author is not a reviewer, no reviewer appears twice, and
  a merge timestamp is present exactly when the status is MERGED.
- `repo.dfy` (`Repo`): the database as an in-memory `Store`. The `users`
  table is a sequence of rows; its primary key is stated in `Valid()`.
  Pull requests are a map from id to record, each record holding its
  reviewer list. The repository functions the engine calls are stated by
  their effect on this state.
- `selection.dfy` (`Selection`): the candidate pool and `selectRandomReviewers`.
- `service.dfy` (`Service`): `PullRequestService` with `CreatePullRequest`,
  `MergePullRequest` and `ReassignReviewer`. The loops of those operations
  are separate methods, each proved against a specification function.

Randomness is a nondeterministic choice (`:|`). Each Fisher-Yates swap
partner in `Shuffle` and the `rand.Intn` index in `ReassignReviewer` is an
arbitrary in-range value, so every proved property holds whatever the random
source returns. The database clock `NOW()` becomes a `Timestamp` parameter
(`now`).

The reviewers of a pull request are a list. `ReassignReviewer` hands back
the fetched list with the first occurrence of the outgoing reviewer
overwritten in place, while the store deletes that reviewer's rows and
appends the newcomer's. The model keeps both lists and proves they hold the
same reviewers (`ReplacedListsAgree`).

## Model

| member | source | states |
|---|---|---|
| Repo.GetUserById | internal/repo/user.go:27-45 | finds a user exactly when some row has the id, and what it returns is such a row |
| Repo.GetActiveUsersByTeam | internal/repo/user.go:47-70 | returns exactly the rows of the team that are active; it keeps unique ids unique |
| Repo.RemoveAll | internal/repo/pull_request.go:144-150 | deleting the outgoing reviewer's rows removes every occurrence of that id and keeps every other reviewer as often as before |
| Repo.Store.GetPullRequestWithReviewers | internal/repo/pull_request.go:11-67 | finds a record exactly when the id is stored; what it returns is the stored record, which carries that id and is well formed |
| Repo.Store.CreatePullRequest | internal/repo/pull_request.go:69-119 | a taken id is rejected with nothing written; otherwise an OPEN record stamped `now` with exactly the given reviewers is added and nothing else changes |
| Repo.Store.MarkPullRequestMerged | internal/repo/pull_request.go:121-135 | on a stored id, sets status MERGED and the merge time to `now`, with every other field and record unchanged; an unknown id changes nothing |
| Repo.Store.ReplacePullRequestReviewer | internal/repo/pull_request.go:137-161 | the stored reviewers become the old ones without the outgoing reviewer, followed by the newcomer; no other record changes |
| Selection.CandidatePool | internal/service/pull_request.go:53-59 | the pool holds exactly the row ids outside the exclusion set; it is no longer than the rows and is duplicate-free when the ids are unique |
| Selection.CandidatePoolAppend | internal/service/pull_request.go:134-140 | the pool keeps row order: the pool of two blocks of rows is the two pools one after the other |
| Selection.CollectCandidates | internal/service/pull_request.go:134-140 | the skip-or-append loop builds exactly the candidate pool |
| Selection.Shuffle | internal/service/pull_request.go:179-181 | the in-place shuffle of the copy only reorders it: same multiset of ids |
| Selection.SelectRandomReviewers | internal/service/pull_request.go:166-184 | empty pool or limit <= 0 gives nothing; a pool within the limit is returned whole and in order; otherwise exactly `maxCount` ids that are a prefix of a permutation of the pool; always a sub-multiset of the pool, duplicate-free when the pool is |
| Seqs.SubMultisetNoDuplicates | internal/service/pull_request.go:177-183 | a sample drawn from a duplicate-free pool is duplicate-free |
| Service.CreationCandidates | internal/service/pull_request.go:48-59 | the creation candidates are exactly the active members of the author's team other than the author; duplicate-free under unique user ids |
| Service.SelectionExcludes | internal/service/pull_request.go:53-61 | whatever is selected from a pool without the author is in the pool and is not the author |
| Service.ContainsReviewer | internal/service/pull_request.go:103-112 | the scan answers true exactly when the outgoing reviewer is in the assigned list |
| Service.BuildExclusionSet | internal/service/pull_request.go:127-132 | the exclusion set is the outgoing reviewer, the author and every assigned reviewer |
| Service.ReplacementCandidates | internal/service/pull_request.go:122-140 | the replacement candidates are exactly the active members of the given team who are not the outgoing reviewer, not the author and not assigned; duplicate-free under unique user ids |
| Service.ReplaceFirst | internal/service/pull_request.go:152-157 | same length; the first occurrence of the outgoing reviewer becomes the newcomer and every other entry is unchanged; a list without it is returned as is |
| Service.ReplacedListsAgree | internal/service/pull_request.go:148-157 | for a duplicate-free list, the list returned to the caller and the list the store keeps after the swap hold the same reviewers |
| Service.SwapKeepsWellFormed | internal/repo/pull_request.go:144-158 | swapping in a reviewer who is neither the author nor assigned keeps the record invariant |
| Service.PullRequestService.CreatePullRequest | internal/service/pull_request.go:31-64 | PRExists on a taken id, checked before the author lookup, then AuthorNotFound, both with the store unchanged; otherwise stores and returns an OPEN record stamped `now` with min(candidates, 2) distinct reviewers drawn from the creation candidates (all of them when at most two), never the author; the store invariant is kept |
| Service.PullRequestService.MergePullRequest | internal/service/pull_request.go:66-88 | PRNotFound on an unknown id with no write; a MERGED record is returned exactly as stored with no write; otherwise status MERGED and merge time `now`, with reviewers and every other field unchanged; the store invariant is kept |
| Service.PullRequestService.ReassignReviewer | internal/service/pull_request.go:90-160 | errors in the order PRNotFound, PRMerged, ReviewerNotAssigned, UserNotFound, NoCandidate, each leaving the store unchanged; succeeds exactly when every guard passes and a replacement candidate exists. On success the newcomer is an active member of the outgoing reviewer's team, is neither the outgoing reviewer nor the author, and was not assigned. The returned list overwrites the first occurrence in place, the store swaps the rows, and both hold the same reviewers. The store invariant is kept |
| Service.MergeTwice | internal/service/pull_request.go:75-77 | merging twice returns the same record, with the merge timestamp of the first call, and the second call writes nothing; an unknown id gives PRNotFound twice with the store untouched |

## Left out

- Database failures: every `err != nil` return, transaction rollback, and the
  opaque internal error the transport maps to status 500. The repository
  operations return `None` only for the rejections the model can express.
  These are a taken primary key on insert and an unknown id on merge. The
  service's own guards make both unreachable, and the model proves this.
- Concurrency. Each operation runs alone, so the read-then-insert race in
  `CreatePullRequest` and last-writer-wins between concurrent reassignments
  are not modelled.
- `rand.Seed` and the uniformity of `rand.Shuffle` and `rand.Intn`. Only the
  set of possible outcomes is modelled, not their probabilities.
- Wall-clock time: `NOW()` and `created_at` are a `Timestamp` argument. Only
  equality of timestamps is used.
- Row order of `SELECT` statements without `ORDER BY`. The model reads rows in
  the order of its `users` sequence and of each record's reviewer list.
- Repo.Store.ReplacePullRequestReviewer: the database schema is not part of
  this model. So a reviewer row inserted for a pull request id that does not
  exist, and a duplicate reviewer row, are not rejected as a foreign or
  primary key would reject them. The service never issues either.
- `GetUserReviews` and `GetPullRequestsByReviewer`: a pass-through to a single
  SQL query, with no decision logic.
- Team and user management (`internal/service/team.go`, the rest of
  `internal/service/user.go`, `internal/repo/team.go`,
  `UpdateUserIsActive`). The `users` table is read-only in this model.
- HTTP handlers, request binding and the error-to-status mapping, along with
  configuration and server start-up.
- `internal/models/pull_request.go` is not part of this model. The record's
  fields follow the columns read and written in
  `internal/repo/pull_request.go`. Go's nil pointers (`MergedAt`) become
  `Option`.
