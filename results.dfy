/** The FinalResult table: how the count handler writes the tally into it,
    and how the public results page picks each category's winner from it. */
module Results {
  import opened Common
  import opened Votes
  import opened Tally

  /** A FinalResult row; `score` is ten times the stored `total_score`, and
      `created` is set once, when the row is inserted. */
  datatype FinalResult = FinalResult(category: CategoryId, nominee: NomineeId,
                                     juryVotes: nat, userVotes: nat, score: nat, created: nat)

  /** One `update_or_create` call of the commit: the category and the tally
      line that supply its lookup key and its new values. */
  datatype Update = Update(category: CategoryId, entry: Entry)

  function Key(r: FinalResult): (CategoryId, NomineeId) {
    (r.category, r.nominee)
  }

  function UpdateKey(u: Update): (CategoryId, NomineeId) {
    (u.category, u.entry.nominee)
  }

  /** The row holds the counts and the score of the line. */
  predicate Holds(r: FinalResult, e: Entry) {
    r.juryVotes == e.juryVotes && r.userVotes == e.userVotes && r.score == e.score
  }

  /** The table's unique key: at most one row per (category, nominee). */
  predicate UniqueResults(t: seq<FinalResult>) {
    forall i, j :: 0 <= i < j < |t| ==> Key(t[i]) != Key(t[j])
  }

  predicate HasKey(t: seq<FinalResult>, k: (CategoryId, NomineeId)) {
    exists i :: 0 <= i < |t| && Key(t[i]) == k
  }

  /** The first row holding key `k`, looking from row `from` on. */
  function FindResult(t: seq<FinalResult>, k: (CategoryId, NomineeId), from: nat): (p: Option<nat>)
    requires from <= |t|
    ensures p.Some? ==>
      && from <= p.value < |t| && Key(t[p.value]) == k
      && forall i :: from <= i < p.value ==> Key(t[i]) != k
    ensures p.None? ==> forall i :: from <= i < |t| ==> Key(t[i]) != k
    decreases |t| - from
  {
    if from == |t| then None
    else if Key(t[from]) == k then Some(from)
    else FindResult(t, k, from + 1)
  }

  /** `FinalResult.objects.update_or_create(category=..., nominee=...,
      defaults=...)`: the row with the key gets the new counts and score in
      place; with no such row one is inserted at time `now`. */
  function UpdateOrCreate(t: seq<FinalResult>, u: Update, now: nat): seq<FinalResult> {
    match FindResult(t, UpdateKey(u), 0)
    case Some(p) =>
      t[p := t[p].(juryVotes := u.entry.juryVotes, userVotes := u.entry.userVotes, score := u.entry.score)]
    case None =>
      t + [FinalResult(u.category, u.entry.nominee, u.entry.juryVotes, u.entry.userVotes, u.entry.score, now)]
  }

  /** The calls of the commit loop, in order: category by category, line by
      line. */
  function UpdatesOf(data: seq<CategoryTally>): seq<Update> {
    if data == [] then []
    else UpdatesOf(data[..|data| - 1]) + RowsOf(data[|data| - 1])
  }

  function RowsOf(d: CategoryTally): seq<Update> {
    seq(|d.results|, j requires 0 <= j < |d.results| => Update(d.category, d.results[j]))
  }

  /** The calls `us` applied to the table one after the other. */
  function CommitRows(t: seq<FinalResult>, us: seq<Update>, now: nat): seq<FinalResult> {
    if us == [] then t
    else UpdateOrCreate(CommitRows(t, us[..|us| - 1], now), us[|us| - 1], now)
  }

  /** The commit of the count handler. */
  function Commit(t: seq<FinalResult>, data: seq<CategoryTally>, now: nat): seq<FinalResult> {
    CommitRows(t, UpdatesOf(data), now)
  }

  /** One more call is one more `update_or_create` on the table so far. */
  lemma CommitRowsSnoc(t: seq<FinalResult>, us: seq<Update>, x: Update, now: nat)
    ensures CommitRows(t, us + [x], now) == UpdateOrCreate(CommitRows(t, us, now), x, now)
  {
    assert (us + [x])[..|us|] == us;
  }

  /** Applying two lists of calls one after the other is applying their
      concatenation. */
  lemma {:induction false} CommitRowsConcat(t: seq<FinalResult>, a: seq<Update>, b: seq<Update>, now: nat)
    ensures CommitRows(CommitRows(t, a, now), b, now) == CommitRows(t, a + b, now)
  {
    if b == [] {
      assert a + b == a;
    } else {
      var init, x := b[..|b| - 1], b[|b| - 1];
      CommitRowsConcat(t, a, init, now);
      assert b == init + [x];
      assert a + b == (a + init) + [x];
      CommitRowsSnoc(CommitRows(t, a, now), init, x, now);
      CommitRowsSnoc(t, a + init, x, now);
    }
  }

  /** The calls of one more category follow those of the categories before. */
  lemma UpdatesOfSnoc(data: seq<CategoryTally>, i: nat)
    requires i < |data|
    ensures UpdatesOf(data[..i + 1]) == UpdatesOf(data[..i]) + RowsOf(data[i])
  {
    assert data[..i + 1][..i] == data[..i];
  }

  /** The line of the last call for key `k`, which is what the row with that
      key holds afterwards. */
  function LastFor(us: seq<Update>, k: (CategoryId, NomineeId)): Option<Entry> {
    if us == [] then None
    else if UpdateKey(us[|us| - 1]) == k then Some(us[|us| - 1].entry)
    else LastFor(us[..|us| - 1], k)
  }

  /** What the commit leaves: the table keeps its unique key; every row it
      had keeps its key, its position and its creation time, and holds the
      values of the last call for its key, or its old values when no call
      was for its key; the rows added hold keys the table did not have, one
      per key, with the values of their last call; and every key called for
      has a row. */
  ghost predicate CommitOutcome(t: seq<FinalResult>, us: seq<Update>, r: seq<FinalResult>) {
    && UniqueResults(r)
    && |t| <= |r|
    && (forall i :: 0 <= i < |t| ==>
          && Key(r[i]) == Key(t[i]) && r[i].created == t[i].created
          && (LastFor(us, Key(t[i])).Some? ==> Holds(r[i], LastFor(us, Key(t[i])).value))
          && (LastFor(us, Key(t[i])).None? ==> r[i] == t[i]))
    && (forall i :: |t| <= i < |r| ==>
          && !HasKey(t, Key(r[i]))
          && LastFor(us, Key(r[i])).Some? && Holds(r[i], LastFor(us, Key(r[i])).value))
    && (forall k :: LastFor(us, k).Some? ==> HasKey(r, k))
  }

  /** One `update_or_create` call on a table with unique keys. */
  lemma UpdateOrCreateOutcome(t: seq<FinalResult>, u: Update, now: nat)
    requires UniqueResults(t)
    ensures CommitOutcome(t, [u], UpdateOrCreate(t, u, now))
  {
    var r := UpdateOrCreate(t, u, now);
    assert [u][..0] == [];
    var p := FindResult(t, UpdateKey(u), 0);
    if p.Some? {
      assert Key(r[p.value]) == UpdateKey(u);
    } else {
      assert Key(r[|t|]) == UpdateKey(u);
    }
  }

  /** The commit of a whole list of calls, by induction on the list. */
  lemma {:induction false} CommitRowsOutcome(t: seq<FinalResult>, us: seq<Update>, now: nat)
    requires UniqueResults(t)
    ensures CommitOutcome(t, us, CommitRows(t, us, now))
  {
    if us != [] {
      var init, x := us[..|us| - 1], us[|us| - 1];
      var mid := CommitRows(t, init, now);
      var r := UpdateOrCreate(mid, x, now);
      CommitRowsOutcome(t, init, now);
      UpdateOrCreateOutcome(mid, x, now);
      assert [x][..0] == [];
      forall k ensures LastFor(us, k) == if UpdateKey(x) == k then Some(x.entry) else LastFor(init, k) {
      }
      forall i | 0 <= i < |t|
        ensures Key(r[i]) == Key(t[i]) && r[i].created == t[i].created
        ensures LastFor(us, Key(t[i])).Some? ==> Holds(r[i], LastFor(us, Key(t[i])).value)
        ensures LastFor(us, Key(t[i])).None? ==> r[i] == t[i]
      {
      }
      forall i | |t| <= i < |r|
        ensures !HasKey(t, Key(r[i]))
        ensures LastFor(us, Key(r[i])).Some? && Holds(r[i], LastFor(us, Key(r[i])).value)
      {
        if i >= |mid| {
          assert Key(r[i]) == UpdateKey(x);
        }
      }
      forall k | LastFor(us, k).Some? ensures HasKey(r, k) {
        if UpdateKey(x) != k {
          var j :| 0 <= j < |mid| && Key(mid[j]) == k;
          assert Key(r[j]) == k;
        }
      }
    }
  }

  /** Commit leaves one row per key it wrote, holding that key's counts and
      score, and leaves alone every row whose key it did not write. */
  lemma CommitWrites(t: seq<FinalResult>, data: seq<CategoryTally>, now: nat, k: (CategoryId, NomineeId))
    requires UniqueResults(t)
    ensures var r := Commit(t, data, now);
      && UniqueResults(r) && |t| <= |r|
      && (LastFor(UpdatesOf(data), k).Some? ==>
            exists i :: 0 <= i < |r| && Key(r[i]) == k && Holds(r[i], LastFor(UpdatesOf(data), k).value))
      && (LastFor(UpdatesOf(data), k).None? ==>
            forall i :: 0 <= i < |t| && Key(t[i]) == k ==> r[i] == t[i])
  {
    var us := UpdatesOf(data);
    var r := Commit(t, data, now);
    CommitRowsOutcome(t, us, now);
    if LastFor(us, k).Some? {
      var i :| 0 <= i < |r| && Key(r[i]) == k;
      if i < |t| {
        assert Key(t[i]) == k;
      }
    }
  }

  /** Running the commit twice with the same tally leaves the same table as
      running it once: the second run only overwrites rows with the values
      they already hold. */
  lemma CommitIdempotent(t: seq<FinalResult>, data: seq<CategoryTally>, now: nat, later: nat)
    requires UniqueResults(t)
    ensures Commit(Commit(t, data, now), data, later) == Commit(t, data, now)
  {
    var us := UpdatesOf(data);
    var r1 := CommitRows(t, us, now);
    var r2 := CommitRows(r1, us, later);
    CommitRowsOutcome(t, us, now);
    CommitRowsOutcome(r1, us, later);
    forall i | 0 <= i < |r1| ensures r2[i] == r1[i] {
      var k := Key(r1[i]);
      if LastFor(us, k).Some? {
        if i < |t| {
          assert Key(t[i]) == k;
        }
      }
    }
    if |r2| > |r1| {
      var k := Key(r2[|r1|]);
      assert false;
    }
    assert r2 == r1;
  }

  /** When every call for key `k` carries the line `e`, the last call for
      `k` carries `e`, and there is a last call exactly when there is one. */
  lemma {:induction false} LastForUniform(us: seq<Update>, k: (CategoryId, NomineeId), e: Entry)
    requires forall i :: 0 <= i < |us| && UpdateKey(us[i]) == k ==> us[i].entry == e
    ensures LastFor(us, k) == if exists i :: 0 <= i < |us| && UpdateKey(us[i]) == k then Some(e) else None
  {
    if us != [] {
      var init := us[..|us| - 1];
      assert forall i :: 0 <= i < |init| ==> init[i] == us[i];
      LastForUniform(init, k, e);
      if UpdateKey(us[|us| - 1]) != k {
        if exists i :: 0 <= i < |us| && UpdateKey(us[i]) == k {
          var i :| 0 <= i < |us| && UpdateKey(us[i]) == k;
          assert UpdateKey(init[i]) == k;
        }
      } else {
        assert UpdateKey(us[|us| - 1]) == k;
      }
    }
  }

  /** The calls of the commit are the pairs of a category and one of its
      lines. */
  lemma {:induction false} UpdatesOfMembers(data: seq<CategoryTally>, u: Update)
    ensures u in UpdatesOf(data) <==>
      exists i, j :: 0 <= i < |data| && 0 <= j < |data[i].results| && u == Update(data[i].category, data[i].results[j])
  {
    if data != [] {
      var init, d := data[..|data| - 1], data[|data| - 1];
      UpdatesOfMembers(init, u);
      if u in UpdatesOf(data) {
        if u in UpdatesOf(init) {
          var i, j :| 0 <= i < |init| && 0 <= j < |init[i].results| && u == Update(init[i].category, init[i].results[j]);
          assert init[i] == data[i];
        } else {
          var j :| 0 <= j < |RowsOf(d)| && RowsOf(d)[j] == u;
          assert u == Update(data[|data| - 1].category, data[|data| - 1].results[j]);
        }
      }
      if exists i, j :: 0 <= i < |data| && 0 <= j < |data[i].results| && u == Update(data[i].category, data[i].results[j]) {
        var i, j :| 0 <= i < |data| && 0 <= j < |data[i].results| && u == Update(data[i].category, data[i].results[j]);
        if i < |data| - 1 {
          assert init[i] == data[i];
          assert u in UpdatesOf(init);
        } else {
          assert RowsOf(d)[j] == u;
        }
      }
    }
  }

  /** In the commit of a tally, the last call for (c, n) carries the counts
      of nominee `n`, and there is one exactly when `c` is a listed category
      and `n` one of its nominees. */
  lemma TallyLastFor(categories: seq<CategoryId>, nominees: seq<Nominee>, votes: seq<VoteRow>,
                     c: CategoryId, n: NomineeId)
    ensures LastFor(UpdatesOf(TallyAll(categories, nominees, votes)), (c, n)) ==
      if c in categories && InCategory(nominees, n, c) then Some(EntryFor(votes, n)) else None
  {
    var data := TallyAll(categories, nominees, votes);
    var us := UpdatesOf(data);
    forall i | 0 <= i < |us| && UpdateKey(us[i]) == (c, n)
      ensures us[i].entry == EntryFor(votes, n) && c in categories && InCategory(nominees, n, c)
    {
      UpdatesOfMembers(data, us[i]);
      var a, b :| 0 <= a < |data| && 0 <= b < |data[a].results| && us[i] == Update(data[a].category, data[a].results[b]);
      assert data[a].results[b] in TallyCategory(nominees, votes, categories[a]);
      TallyMembers(nominees, votes, categories[a], data[a].results[b]);
    }
    LastForUniform(us, (c, n), EntryFor(votes, n));
    if c in categories && InCategory(nominees, n, c) {
      var a :| 0 <= a < |categories| && categories[a] == c;
      TallyListsEachNominee(nominees, votes, c, n);
      var b :| 0 <= b < |data[a].results| && data[a].results[b].nominee == n;
      UpdatesOfMembers(data, Update(c, data[a].results[b]));
      var i :| 0 <= i < |us| && us[i] == Update(c, data[a].results[b]);
      assert UpdateKey(us[i]) == (c, n);
    }
  }

  /** The count handler's commit, end to end: afterwards every nominee of
      every category has one row holding its jury votes, its public votes
      and its score, and a row for any other pair is left as it was. */
  lemma CountCommit(t: seq<FinalResult>, categories: seq<CategoryId>, nominees: seq<Nominee>,
                    votes: seq<VoteRow>, now: nat, c: CategoryId, n: NomineeId)
    requires UniqueResults(t)
    ensures var r := Commit(t, TallyAll(categories, nominees, votes), now);
      && UniqueResults(r)
      && (c in categories && InCategory(nominees, n, c) ==>
            exists i :: 0 <= i < |r| && Key(r[i]) == (c, n)
              && r[i].juryVotes == CountVotes(votes, n, true)
              && r[i].userVotes == CountVotes(votes, n, false)
              && r[i].score == 3 * r[i].juryVotes + 7 * r[i].userVotes)
      && (!(c in categories && InCategory(nominees, n, c)) ==>
            |t| <= |r| && forall i :: 0 <= i < |t| && Key(t[i]) == (c, n) ==> r[i] == t[i])
  {
    TallyLastFor(categories, nominees, votes, c, n);
    CommitWrites(t, TallyAll(categories, nominees, votes), now, (c, n));
  }

  // ---------------------------------------------------------------------
  // Public results.

  /** The category's row with the highest score among the first `m` rows,
      the earliest among equal scores; `None` when the category has none. */
  function BestRow(t: seq<FinalResult>, c: CategoryId, m: nat): (b: Option<nat>)
    requires m <= |t|
    ensures b.Some? ==>
      && b.value < m && t[b.value].category == c
      && (forall i :: 0 <= i < m && t[i].category == c ==> t[i].score <= t[b.value].score)
      && (forall i :: 0 <= i < b.value && t[i].category == c ==> t[i].score < t[b.value].score)
    ensures b.None? ==> forall i :: 0 <= i < m ==> t[i].category != c
  {
    if m == 0 then None
    else
      var b := BestRow(t, c, m - 1);
      if t[m - 1].category != c then b
      else if b.None? || t[m - 1].score > t[b.value].score then Some(m - 1)
      else b
  }

  /** A category and the nominee published as its winner. */
  datatype Winner = Winner(category: CategoryId, nominee: NomineeId)

  /** The winners of the listed categories, in category order, leaving out
      every category that has no row. */
  function Winners(categories: seq<CategoryId>, t: seq<FinalResult>): seq<Winner> {
    if categories == [] then []
    else
      var c := categories[|categories| - 1];
      var b := BestRow(t, c, |t|);
      Winners(categories[..|categories| - 1], t) +
        (if b.Some? then [Winner(c, t[b.value].nominee)] else [])
  }

  /** The loop of the public results page. */
  method PublicResults(categories: seq<CategoryId>, t: seq<FinalResult>) returns (winners: seq<Winner>)
    ensures winners == Winners(categories, t)
  {
    winners := [];
    for i := 0 to |categories|
      invariant winners == Winners(categories[..i], t)
    {
      assert categories[..i + 1][..i] == categories[..i];
      var category := categories[i];
      var best := BestRow(t, category, |t|);
      if best.Some? {
        winners := winners + [Winner(category, t[best.value].nominee)];
      }
    }
    assert categories[..|categories|] == categories;
  }

  /** A category is listed exactly when it is one of the categories and has
      at least one row. */
  lemma {:induction false} WinnersListed(categories: seq<CategoryId>, t: seq<FinalResult>, c: CategoryId)
    ensures (exists i :: 0 <= i < |Winners(categories, t)| && Winners(categories, t)[i].category == c) <==>
      c in categories && exists k :: 0 <= k < |t| && t[k].category == c
  {
    if categories != [] {
      var init, last := categories[..|categories| - 1], categories[|categories| - 1];
      WinnersListed(init, t, c);
      assert categories == init + [last];
      var w := Winners(init, t);
      var b := BestRow(t, last, |t|);
      var tail := if b.Some? then [Winner(last, t[b.value].nominee)] else [];
      assert Winners(categories, t) == w + tail;
      if exists i :: 0 <= i < |w| && w[i].category == c {
        var i :| 0 <= i < |w| && w[i].category == c;
        assert (w + tail)[i] == w[i];
      }
      if last == c && (exists k :: 0 <= k < |t| && t[k].category == c) {
        var k :| 0 <= k < |t| && t[k].category == c;
        assert b.Some?;
        assert (w + tail)[|w|].category == c;
      }
      if exists i :: 0 <= i < |w + tail| && (w + tail)[i].category == c {
        var i :| 0 <= i < |w + tail| && (w + tail)[i].category == c;
        if i >= |w| {
          assert b.Some? && last == c && t[b.value].category == c;
        } else {
          assert (w + tail)[i] == w[i];
          assert exists j :: 0 <= j < |Winners(init, t)| && Winners(init, t)[j].category == c;
          assert c in init;
          assert c in categories;
        }
      }
    }
  }

  /** Every listed winner comes from a row of its category whose score is at
      least that of every row of the category. */
  lemma {:induction false} WinnerHasTopScore(categories: seq<CategoryId>, t: seq<FinalResult>, i: nat)
    requires i < |Winners(categories, t)|
    ensures var w := Winners(categories, t)[i];
      exists k :: 0 <= k < |t| && t[k].category == w.category && t[k].nominee == w.nominee &&
        forall j :: 0 <= j < |t| && t[j].category == w.category ==> t[j].score <= t[k].score
  {
    var init, last := categories[..|categories| - 1], categories[|categories| - 1];
    var w := Winners(init, t);
    if i < |w| {
      WinnerHasTopScore(init, t, i);
      assert Winners(categories, t)[i] == w[i];
    } else {
      var b := BestRow(t, last, |t|);
      assert Winners(categories, t)[i] == Winner(last, t[b.value].nominee);
    }
  }
}
