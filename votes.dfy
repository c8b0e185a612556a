/** Nominees and the Vote table, and the update-or-insert write that the
    voting handler performs. */
module Votes {
  import opened Common

  /** A Nominee row: its key and the category it belongs to. */
  datatype Nominee = Nominee(id: NomineeId, category: CategoryId)

  /** A Vote row; `created` is set once, when the row is inserted. */
  datatype VoteRow = VoteRow(user: UserId, nominee: NomineeId, jury: bool, created: nat)

  predicate InCategory(nominees: seq<Nominee>, n: NomineeId, c: CategoryId) {
    Nominee(n, c) in nominees
  }

  predicate NomineeExists(nominees: seq<Nominee>, n: NomineeId) {
    exists i :: 0 <= i < |nominees| && nominees[i].id == n
  }

  /** The table's unique key: at most one row per (user, nominee). */
  predicate UniqueVotes(votes: seq<VoteRow>) {
    forall i, j :: 0 <= i < j < |votes| ==>
      !(votes[i].user == votes[j].user && votes[i].nominee == votes[j].nominee)
  }

  /** Row `k` is a vote of user `u` for a nominee of category `c`. */
  predicate VoteIn(votes: seq<VoteRow>, nominees: seq<Nominee>, k: int, u: UserId, c: CategoryId) {
    0 <= k < |votes| && votes[k].user == u && InCategory(nominees, votes[k].nominee, c)
  }

  /** The user holds no two votes among the nominees of the category. */
  predicate AtMostOneVoteIn(votes: seq<VoteRow>, nominees: seq<Nominee>, u: UserId, c: CategoryId) {
    forall i, j ::
      (0 <= i < |votes| && 0 <= j < |votes| &&
       VoteIn(votes, nominees, i, u, c) && VoteIn(votes, nominees, j, u, c)) ==> i == j
  }

  /** `Vote.objects.filter(user=u, nominee__category=c).first()`: the first
      such row in key order, looking from row `from` on. */
  function FirstVoteIn(votes: seq<VoteRow>, nominees: seq<Nominee>, u: UserId, c: CategoryId, from: nat): (k: Option<nat>)
    requires from <= |votes|
    ensures k.Some? ==>
      && from <= k.value && VoteIn(votes, nominees, k.value, u, c)
      && forall j :: from <= j < k.value ==> !VoteIn(votes, nominees, j, u, c)
    ensures k.None? ==> forall j :: from <= j < |votes| ==> !VoteIn(votes, nominees, j, u, c)
    decreases |votes| - from
  {
    if from == |votes| then None
    else if VoteIn(votes, nominees, from, u, c) then Some(from)
    else FirstVoteIn(votes, nominees, u, c, from + 1)
  }

  /** Some row other than row `except` already holds the key (u, n). */
  predicate KeyTaken(votes: seq<VoteRow>, u: UserId, n: NomineeId, except: int) {
    exists j :: 0 <= j < |votes| && j != except && votes[j].user == u && votes[j].nominee == n
  }

  /** The write of the voting handler: the user's first vote in category `c`
      is retargeted to nominee `n` and given the flag `jury`; with no such
      vote a new row is inserted at time `now`. `n` is not checked to belong
      to `c`. `None` is the unique-key violation on (user, nominee), which
      aborts the write. */
  function CastVote(votes: seq<VoteRow>, nominees: seq<Nominee>, u: UserId, c: CategoryId,
                    n: NomineeId, jury: bool, now: nat): Option<seq<VoteRow>>
  {
    match FirstVoteIn(votes, nominees, u, c, 0)
    case Some(k) =>
      if KeyTaken(votes, u, n, k) then None
      else Some(votes[k := votes[k].(nominee := n, jury := jury)])
    case None =>
      if KeyTaken(votes, u, n, -1) then None
      else Some(votes + [VoteRow(u, n, jury, now)])
  }

  /** A successful write keeps the table's unique key. */
  lemma CastVoteKeepsUnique(votes: seq<VoteRow>, nominees: seq<Nominee>, u: UserId, c: CategoryId,
                            n: NomineeId, jury: bool, now: nat)
    requires UniqueVotes(votes)
    requires CastVote(votes, nominees, u, c, n, jury, now).Some?
    ensures UniqueVotes(CastVote(votes, nominees, u, c, n, jury, now).value)
  {
  }

  /** Replace, not append. When the user held at most one vote in the
      category and the chosen nominee belongs to it, the write cannot clash
      with the unique key, and afterwards the user holds exactly one vote in
      the category: the one for `n`, carrying the flag `jury`. */
  lemma CastVoteReplaces(votes: seq<VoteRow>, nominees: seq<Nominee>, u: UserId, c: CategoryId,
                         n: NomineeId, jury: bool, now: nat)
    requires AtMostOneVoteIn(votes, nominees, u, c)
    requires InCategory(nominees, n, c)
    ensures CastVote(votes, nominees, u, c, n, jury, now).Some?
    ensures var r := CastVote(votes, nominees, u, c, n, jury, now).value;
      AtMostOneVoteIn(r, nominees, u, c) &&
      (exists k :: VoteIn(r, nominees, k, u, c)) &&
      forall k :: VoteIn(r, nominees, k, u, c) ==> r[k].nominee == n && r[k].jury == jury
  {
    var first := FirstVoteIn(votes, nominees, u, c, 0);
    if first.Some? {
      var k := first.value;
      if KeyTaken(votes, u, n, k) {
        var j :| 0 <= j < |votes| && j != k && votes[j].user == u && votes[j].nominee == n;
        assert VoteIn(votes, nominees, j, u, c);
        assert false;
      }
      var r := votes[k := votes[k].(nominee := n, jury := jury)];
      assert CastVote(votes, nominees, u, c, n, jury, now) == Some(r);
      assert VoteIn(r, nominees, k, u, c);
      forall i | VoteIn(r, nominees, i, u, c) ensures i == k {
        if i != k { assert VoteIn(votes, nominees, i, u, c); }
      }
    } else {
      if KeyTaken(votes, u, n, -1) {
        var j :| 0 <= j < |votes| && votes[j].user == u && votes[j].nominee == n;
        assert VoteIn(votes, nominees, j, u, c);
        assert false;
      }
      var r := votes + [VoteRow(u, n, jury, now)];
      assert CastVote(votes, nominees, u, c, n, jury, now) == Some(r);
      assert VoteIn(r, nominees, |votes|, u, c);
      forall i | VoteIn(r, nominees, i, u, c) ensures i == |votes| {
        if i < |votes| { assert VoteIn(votes, nominees, i, u, c); }
      }
    }
  }

  /** A successful write touches one row: either one existing row is
      replaced, or one row is appended. The row written is the user's vote
      for `n` with the flag `jury`, and every vote of another user, or of the
      user in another category, is left as it was. */
  lemma CastVoteFrame(votes: seq<VoteRow>, nominees: seq<Nominee>, u: UserId, c: CategoryId,
                      n: NomineeId, jury: bool, now: nat)
    requires CastVote(votes, nominees, u, c, n, jury, now).Some?
    ensures var r := CastVote(votes, nominees, u, c, n, jury, now).value;
      (|r| == |votes| + 1 && r[..|votes|] == votes && r[|votes|] == VoteRow(u, n, jury, now)) ||
      (|r| == |votes| && exists k ::
         && VoteIn(votes, nominees, k, u, c)
         && r[k].user == u && r[k].nominee == n && r[k].jury == jury
         && forall j :: 0 <= j < |votes| && j != k ==> r[j] == votes[j])
    ensures var r := CastVote(votes, nominees, u, c, n, jury, now).value;
      forall j :: 0 <= j < |votes| && !VoteIn(votes, nominees, j, u, c) ==> r[j] == votes[j]
  {
  }

  /** The chosen nominee is not checked against the category: a vote cast in
      category 10 for nominee 2 of category 20 moves the user's vote out of
      category 10, which is then left with none. */
  lemma CastVoteCanLeaveCategory()
    ensures var nominees := [Nominee(1, 10), Nominee(2, 20)];
      var r := CastVote([VoteRow(7, 1, false, 0)], nominees, 7, 10, 2, false, 5);
      r == Some([VoteRow(7, 2, false, 0)]) &&
      !VoteIn(r.value, nominees, 0, 7, 10) && VoteIn(r.value, nominees, 0, 7, 20)
  {
    var nominees := [Nominee(1, 10), Nominee(2, 20)];
    var votes := [VoteRow(7, 1, false, 0)];
    assert VoteIn(votes, nominees, 0, 7, 10);
    assert FirstVoteIn(votes, nominees, 7, 10, 0) == Some(0);
    assert !KeyTaken(votes, 7, 2, 0);
    assert votes[0 := votes[0].(nominee := 2, jury := false)] == [VoteRow(7, 2, false, 0)];
    assert CastVote(votes, nominees, 7, 10, 2, false, 5) == Some([VoteRow(7, 2, false, 0)]);
    assert Nominee(2, 10) !in nominees;
    assert Nominee(2, 20) == nominees[1];
  }
  /** The same missing check lets a user hold two votes in one category: with
      a vote for nominee 1 of category 10, a vote cast on the page of
      category 20 for nominee 2 of category 10 finds no vote in category 20
      and appends a second vote in category 10. */
  lemma CastVoteCanDoubleInCategory()
    ensures var nominees := [Nominee(1, 10), Nominee(2, 10), Nominee(3, 20)];
      var r := CastVote([VoteRow(7, 1, false, 0)], nominees, 7, 20, 2, false, 5);
      r == Some([VoteRow(7, 1, false, 0), VoteRow(7, 2, false, 5)]) &&
      !AtMostOneVoteIn(r.value, nominees, 7, 10)
  {
    var nominees := [Nominee(1, 10), Nominee(2, 10), Nominee(3, 20)];
    var votes := [VoteRow(7, 1, false, 0)];
    assert Nominee(1, 20) !in nominees;
    assert !VoteIn(votes, nominees, 0, 7, 20);
    assert FirstVoteIn(votes, nominees, 7, 20, 0) == None;
    assert !KeyTaken(votes, 7, 2, -1);
    var r := votes + [VoteRow(7, 2, false, 5)];
    assert CastVote(votes, nominees, 7, 20, 2, false, 5) == Some(r);
    assert Nominee(1, 10) == nominees[0] && Nominee(2, 10) == nominees[1];
    assert r == [VoteRow(7, 1, false, 0), VoteRow(7, 2, false, 5)];
    assert VoteIn(r, nominees, 0, 7, 10) && VoteIn(r, nominees, 1, 7, 10);
    assert !AtMostOneVoteIn(r, nominees, 7, 10);
  }
}
