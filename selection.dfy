/**
 The reviewer selection policy: which users are eligible (the candidate pool)
 and how at most `maxCount` of them are picked. The random source is a
 nondeterministic choice: every proved property holds whatever it picks.
 */
module Selection {

  import opened Seqs
  import opened Models

  /** `r` is the first |r| elements of some reordering of `s`. */
  ghost predicate IsPrefixOfPermutation(r: seq<UserId>, s: seq<UserId>)
  {
    exists p: seq<UserId> :: multiset(p) == multiset(s) && |r| <= |p| && r == p[..|r|]
  }

  /** The ids of `teamUsers` that are not in `exclude`, in row order. Both
      candidate loops of the service build exactly this sequence. */
  function CandidatePool(teamUsers: seq<User>, exclude: set<UserId>): (r: seq<UserId>)
    ensures forall x :: x in r <==> x in Ids(teamUsers) && x !in exclude
    ensures |r| <= |teamUsers|
    ensures UniqueIds(teamUsers) ==> NoDuplicates(r)
  {
    if teamUsers == [] then []
    else
      var init := teamUsers[..|teamUsers| - 1];
      var u := teamUsers[|teamUsers| - 1];
      var rest := CandidatePool(init, exclude);
      assert teamUsers == init + [u];
      assert Ids(teamUsers) == Ids(init) + [u.userId];
      if u.userId in exclude then rest else rest + [u.userId]
  }

  /** The pool keeps the order of the rows: filtering two blocks of rows one
      after the other gives the two pools one after the other. */
  lemma {:induction false} CandidatePoolAppend(a: seq<User>, b: seq<User>, exclude: set<UserId>)
    ensures CandidatePool(a + b, exclude) == CandidatePool(a, exclude) + CandidatePool(b, exclude)
  {
    if b == [] {
      assert a + b == a;
    } else {
      var b' := b[..|b| - 1];
      assert (a + b)[..|a + b| - 1] == a + b';
      assert (a + b)[|a + b| - 1] == b[|b| - 1];
      CandidatePoolAppend(a, b', exclude);
    }
  }

  /** The candidate loops of CreatePullRequest and ReassignReviewer: skip the
      rows whose id is excluded, append the others' ids. */
  method CollectCandidates(teamUsers: seq<User>, exclude: set<UserId>) returns (candidates: seq<UserId>)
    ensures candidates == CandidatePool(teamUsers, exclude)
  {
    candidates := [];
    for i := 0 to |teamUsers|
      invariant candidates == CandidatePool(teamUsers[..i], exclude)
    {
      var u := teamUsers[i];
      assert teamUsers[..i + 1] == teamUsers[..i] + [u];
      if u.userId in exclude {
        continue;
      }
      candidates := candidates + [u.userId];
    }
    assert teamUsers[..|teamUsers|] == teamUsers;
  }

  /** `rand.Shuffle(n, swap)` swapping two ids of the copy: Fisher-Yates
      from the last position down, each swap partner an arbitrary index at
      or below the current one. Only the order of the ids changes. */
  method Shuffle(ids: array<UserId>)
    modifies ids
    ensures multiset(ids[..]) == old(multiset(ids[..]))
  {
    var i := ids.Length - 1;
    while i > 0
      invariant i < ids.Length
      invariant multiset(ids[..]) == old(multiset(ids[..]))
    {
      var j :| 0 <= j <= i;
      ids[i], ids[j] := ids[j], ids[i];
      i := i - 1;
    }
  }

  /** selectRandomReviewers: nothing for an empty pool or a non-positive
      limit, a copy of the whole pool when it fits, and otherwise the first
      `maxCount` ids of a shuffled copy; the caller's ids are never
      reordered. */
  method SelectRandomReviewers(ids: seq<UserId>, maxCount: int) returns (r: seq<UserId>)
    ensures |ids| == 0 || maxCount <= 0 ==> r == []
    ensures 0 < |ids| <= maxCount ==> r == ids
    ensures 0 < maxCount < |ids| ==> |r| == maxCount && IsPrefixOfPermutation(r, ids)
    ensures multiset(r) <= multiset(ids)
    ensures NoDuplicates(ids) ==> NoDuplicates(r)
  {
    var n := |ids|;
    if n == 0 || maxCount <= 0 {
      return [];
    }
    if n <= maxCount {
      return ids;
    }
    var copyIds := new UserId[n](i requires 0 <= i < n => ids[i]);
    assert copyIds[..] == ids;
    Shuffle(copyIds);
    var shuffled := copyIds[..];
    r := shuffled[..maxCount];
    assert shuffled == r + shuffled[maxCount..];
    assert multiset(shuffled) == multiset(ids) && |r| <= |shuffled| && r == shuffled[..|r|];
    if NoDuplicates(ids) {
      SubMultisetNoDuplicates(r, ids);
    }
  }
}
