/** The tally of the count handler: per nominee, the number of jury and of
    public votes and the weighted score; per category, the nominees sorted
    by score, highest first, ties in query order. */
module Tally {
  import opened Common
  import opened Votes

  /** One line of a category's tally. `score` is ten times the handler's
      `total_score = 0.3 * jury_votes + 0.7 * user_votes`, which keeps every
      score an exact integer. */
  datatype Entry = Entry(nominee: NomineeId, juryVotes: nat, userVotes: nat, score: nat)

  /** A category with its sorted tally. */
  datatype CategoryTally = CategoryTally(category: CategoryId, results: seq<Entry>)

  /** `nominee.vote_set.filter(jury=jury).count()`: the rows for `n` whose
      flag is `jury`. */
  function CountVotes(votes: seq<VoteRow>, n: NomineeId, jury: bool): nat {
    if votes == [] then 0
    else
      var last := votes[|votes| - 1];
      CountVotes(votes[..|votes| - 1], n, jury) + (if last.nominee == n && last.jury == jury then 1 else 0)
  }

  /** Ten times `jury_votes * 0.3 + user_votes * 0.7`. */
  function Score(juryVotes: nat, userVotes: nat): nat {
    3 * juryVotes + 7 * userVotes
  }

  /** The tally line of nominee `n`. */
  function EntryFor(votes: seq<VoteRow>, n: NomineeId): Entry {
    var j := CountVotes(votes, n, true);
    var u := CountVotes(votes, n, false);
    Entry(n, j, u, Score(j, u))
  }

  /** The lines of the nominees of category `c`, in nominee query order,
      before sorting. */
  function Unsorted(nominees: seq<Nominee>, votes: seq<VoteRow>, c: CategoryId): seq<Entry> {
    if nominees == [] then []
    else
      var last := nominees[|nominees| - 1];
      Unsorted(nominees[..|nominees| - 1], votes, c) +
        (if last.category == c then [EntryFor(votes, last.id)] else [])
  }

  predicate SortedDesc(es: seq<Entry>) {
    forall i, j :: 0 <= i < j < |es| ==> es[i].score >= es[j].score
  }

  /** The lines whose score is `v`, in their order. A sort is stable when it
      leaves this subsequence alone for every `v`. */
  function WithScore(es: seq<Entry>, v: nat): seq<Entry> {
    if es == [] then []
    else (if es[0].score == v then [es[0]] else []) + WithScore(es[1..], v)
  }

  /** Puts `e` after every line scoring at least as much as it. */
  function InsertDesc(es: seq<Entry>, e: Entry): seq<Entry> {
    if es == [] then [e]
    else if es[0].score >= e.score then [es[0]] + InsertDesc(es[1..], e)
    else [e] + es
  }

  /** `list.sort(key=score, reverse=True)`: highest score first, and equal
      scores in their original order, since that sort is stable. */
  function SortDesc(es: seq<Entry>): seq<Entry> {
    if es == [] then [] else InsertDesc(SortDesc(es[..|es| - 1]), es[|es| - 1])
  }

  /** The tally of one category. */
  function TallyCategory(nominees: seq<Nominee>, votes: seq<VoteRow>, c: CategoryId): seq<Entry> {
    SortDesc(Unsorted(nominees, votes, c))
  }

  /** The tally of every category, in category query order. */
  function TallyAll(categories: seq<CategoryId>, nominees: seq<Nominee>, votes: seq<VoteRow>): seq<CategoryTally> {
    seq(|categories|, i requires 0 <= i < |categories| =>
      CategoryTally(categories[i], TallyCategory(nominees, votes, categories[i])))
  }

  /** The loops of the count handler that build `results_data`: for each
      category, one line per nominee appended in query order, then sorted. */
  method ComputeTally(categories: seq<CategoryId>, nominees: seq<Nominee>, votes: seq<VoteRow>)
    returns (data: seq<CategoryTally>)
    ensures data == TallyAll(categories, nominees, votes)
  {
    data := [];
    for i := 0 to |categories|
      invariant |data| == i
      invariant forall k :: 0 <= k < i ==>
        data[k] == CategoryTally(categories[k], TallyCategory(nominees, votes, categories[k]))
    {
      var category := categories[i];
      var categoryResults: seq<Entry> := [];
      for j := 0 to |nominees|
        invariant categoryResults == Unsorted(nominees[..j], votes, category)
      {
        var nominee := nominees[j];
        assert nominees[..j + 1][..j] == nominees[..j];
        if nominee.category == category {
          var juryVotes := CountVotes(votes, nominee.id, true);
          var userVotes := CountVotes(votes, nominee.id, false);
          categoryResults := categoryResults + [Entry(nominee.id, juryVotes, userVotes, Score(juryVotes, userVotes))];
        }
      }
      assert nominees[..|nominees|] == nominees;
      categoryResults := SortDesc(categoryResults);
      data := data + [CategoryTally(category, categoryResults)];
    }
  }

  // ---------------------------------------------------------------------
  // The sort: ordered, a permutation, and stable.

  lemma {:induction false} WithScoreAppend(a: seq<Entry>, b: seq<Entry>, v: nat)
    ensures WithScore(a + b, v) == WithScore(a, v) + WithScore(b, v)
  {
    if a != [] {
      assert (a + b)[0] == a[0];
      assert (a + b)[1..] == a[1..] + b;
      WithScoreAppend(a[1..], b, v);
      var h := if a[0].score == v then [a[0]] else [];
      calc {
        WithScore(a + b, v);
        h + WithScore(a[1..] + b, v);
        h + (WithScore(a[1..], v) + WithScore(b, v));
        (h + WithScore(a[1..], v)) + WithScore(b, v);
      }
    } else {
      assert a + b == b;
    }
  }

  lemma {:induction false} WithScoreNone(es: seq<Entry>, v: nat)
    requires forall i :: 0 <= i < |es| ==> es[i].score < v
    ensures WithScore(es, v) == []
  {
    if es != [] {
      WithScoreNone(es[1..], v);
    }
  }

  /** Inserting a line below a bound keeps every line below it. */
  lemma {:induction false} InsertDescBounded(es: seq<Entry>, e: Entry, b: nat)
    requires forall i :: 0 <= i < |es| ==> es[i].score <= b
    requires e.score <= b
    ensures |InsertDesc(es, e)| == |es| + 1
    ensures forall i :: 0 <= i < |InsertDesc(es, e)| ==> InsertDesc(es, e)[i].score <= b
  {
    if es != [] && es[0].score >= e.score {
      InsertDescBounded(es[1..], e, b);
    }
  }

  /** Inserting into a sorted seq keeps it sorted. */
  lemma {:induction false} InsertDescSorted(es: seq<Entry>, e: Entry)
    requires SortedDesc(es)
    ensures SortedDesc(InsertDesc(es, e))
  {
    if es == [] {
    } else if es[0].score >= e.score {
      var tail := InsertDesc(es[1..], e);
      InsertDescSorted(es[1..], e);
      InsertDescBounded(es[1..], e, es[0].score);
      var r := [es[0]] + tail;
      assert InsertDesc(es, e) == r;
      forall i, j | 0 <= i < j < |r| ensures r[i].score >= r[j].score {
        assert r[j] == tail[j - 1];
        if i > 0 { assert r[i] == tail[i - 1]; }
      }
    } else {
      var r := [e] + es;
      assert InsertDesc(es, e) == r;
      forall i, j | 0 <= i < j < |r| ensures r[i].score >= r[j].score {
        assert r[j] == es[j - 1];
        if i > 0 { assert r[i] == es[i - 1]; }
        else if j > 1 { assert es[0].score >= es[j - 1].score; }
      }
    }
  }

  /** Inserting adds `e` to the lines already there and nothing else. */
  lemma {:induction false} InsertDescMultiset(es: seq<Entry>, e: Entry)
    ensures multiset(InsertDesc(es, e)) == multiset(es) + multiset{e}
  {
    if es != [] {
      assert es == [es[0]] + es[1..];
      if es[0].score >= e.score {
        InsertDescMultiset(es[1..], e);
      }
    }
  }

  /** The lines of score `v` in a seq that starts with `x`. */
  lemma WithScoreCons(x: Entry, es: seq<Entry>, v: nat)
    ensures WithScore([x] + es, v) == (if x.score == v then [x] else []) + WithScore(es, v)
  {
    assert ([x] + es)[0] == x;
    assert ([x] + es)[1..] == es;
  }

  /** Inserting `e` appends it to the lines of its score and leaves the lines
      of every other score as they were. */
  lemma {:induction false} InsertDescWithScore(es: seq<Entry>, e: Entry, v: nat)
    requires SortedDesc(es)
    ensures WithScore(InsertDesc(es, e), v) == WithScore(es, v) + (if e.score == v then [e] else [])
  {
    if es != [] && es[0].score >= e.score {
      InsertDescWithScore(es[1..], e, v);
      InsertDescWithScoreBelow(es, e, v);
    } else {
      InsertDescWithScoreFront(es, e, v);
    }
  }

  /** The step of the induction: `e` goes below the head. */
  lemma InsertDescWithScoreBelow(es: seq<Entry>, e: Entry, v: nat)
    requires es != [] && es[0].score >= e.score
    requires WithScore(InsertDesc(es[1..], e), v) == WithScore(es[1..], v) + (if e.score == v then [e] else [])
    ensures WithScore(InsertDesc(es, e), v) == WithScore(es, v) + (if e.score == v then [e] else [])
  {
    assert InsertDesc(es, e) == [es[0]] + InsertDesc(es[1..], e);
    WithScoreCons(es[0], InsertDesc(es[1..], e), v);
    assert es == [es[0]] + es[1..];
    WithScoreCons(es[0], es[1..], v);
  }

  /** The base of the induction: `e` goes in front of every line. */
  lemma InsertDescWithScoreFront(es: seq<Entry>, e: Entry, v: nat)
    requires SortedDesc(es) && (es != [] ==> es[0].score < e.score)
    ensures WithScore(InsertDesc(es, e), v) == WithScore(es, v) + (if e.score == v then [e] else [])
  {
    if es == [] {
      WithScoreCons(e, [], v);
    } else {
      BelowHead(es, e.score);
      WithScoreNone(es, e.score);
      assert InsertDesc(es, e) == [e] + es;
      WithScoreCons(e, es, v);
    }
  }

  lemma BelowHead(es: seq<Entry>, b: nat)
    requires SortedDesc(es) && es != [] && es[0].score < b
    ensures forall i :: 0 <= i < |es| ==> es[i].score < b
  {
    forall i | 0 < i < |es| ensures es[i].score < b {
      assert es[0].score >= es[i].score;
    }
  }

  lemma {:induction false} SortDescSorted(es: seq<Entry>)
    ensures SortedDesc(SortDesc(es))
  {
    if es != [] {
      SortDescSorted(es[..|es| - 1]);
      InsertDescSorted(SortDesc(es[..|es| - 1]), es[|es| - 1]);
    }
  }

  lemma {:induction false} SortDescMultiset(es: seq<Entry>)
    ensures multiset(SortDesc(es)) == multiset(es)
  {
    if es != [] {
      var init, last := es[..|es| - 1], es[|es| - 1];
      SortDescMultiset(init);
      InsertDescMultiset(SortDesc(init), last);
      assert es == init + [last];
    }
  }

  lemma {:induction false} SortDescStable(es: seq<Entry>, v: nat)
    ensures WithScore(SortDesc(es), v) == WithScore(es, v)
  {
    if es != [] {
      var init, last := es[..|es| - 1], es[|es| - 1];
      SortDescStable(init, v);
      SortDescSorted(init);
      InsertDescWithScore(SortDesc(init), last, v);
      assert es == init + [last];
      WithScoreAppend(init, [last], v);
      WithScoreCons(last, [], v);
      assert [last] + [] == [last];
    }
  }

  /** The sort orders by score, highest first, keeps exactly the lines it was
      given, and keeps lines of equal score in their original order. */
  lemma SortDescProps(es: seq<Entry>)
    ensures SortedDesc(SortDesc(es))
    ensures multiset(SortDesc(es)) == multiset(es)
    ensures forall v :: WithScore(SortDesc(es), v) == WithScore(es, v)
  {
    SortDescSorted(es);
    SortDescMultiset(es);
    forall v ensures WithScore(SortDesc(es), v) == WithScore(es, v) {
      SortDescStable(es, v);
    }
  }

  // ---------------------------------------------------------------------
  // What the unsorted lines hold.

  /** The unsorted lines are the nominees of `c`, each with its own counts. */
  lemma {:induction false} UnsortedMembers(nominees: seq<Nominee>, votes: seq<VoteRow>, c: CategoryId, e: Entry)
    ensures e in Unsorted(nominees, votes, c) <==>
      InCategory(nominees, e.nominee, c) && e == EntryFor(votes, e.nominee)
  {
    if nominees != [] {
      var init, last := nominees[..|nominees| - 1], nominees[|nominees| - 1];
      UnsortedMembers(init, votes, c, e);
      assert nominees == init + [last];
      assert InCategory(nominees, e.nominee, c) <==>
        InCategory(init, e.nominee, c) || Nominee(e.nominee, c) == last;
    }
  }

  predicate NomineesDistinct(es: seq<Entry>) {
    forall i, j :: 0 <= i < j < |es| ==> es[i].nominee != es[j].nominee
  }

  predicate IdsDistinct(nominees: seq<Nominee>) {
    forall i, j :: 0 <= i < j < |nominees| ==> nominees[i].id != nominees[j].id
  }

  /** With unique nominee keys, no nominee has two unsorted lines. */
  lemma {:induction false} UnsortedDistinct(nominees: seq<Nominee>, votes: seq<VoteRow>, c: CategoryId)
    requires IdsDistinct(nominees)
    ensures NomineesDistinct(Unsorted(nominees, votes, c))
  {
    if nominees != [] {
      var init, last := nominees[..|nominees| - 1], nominees[|nominees| - 1];
      UnsortedDistinct(init, votes, c);
      var u := Unsorted(init, votes, c);
      forall i | 0 <= i < |u| ensures u[i].nominee != last.id {
        UnsortedMembers(init, votes, c, u[i]);
        var k :| 0 <= k < |init| && init[k] == Nominee(u[i].nominee, c);
        assert nominees[k] == init[k];
      }
    }
  }

  /** An element a seq holds twice shows up twice in its multiset. */
  lemma RepeatedInMultiset<T>(s: seq<T>, i: nat, j: nat)
    requires i < j < |s| && s[i] == s[j]
    ensures multiset(s)[s[i]] >= 2
  {
    assert s == s[..j] + s[j..];
    assert s[i] == s[..j][i];
    assert s[j] == s[j..][0];
    assert multiset(s) == multiset(s[..j]) + multiset(s[j..]);
  }

  /** A seq of lines with distinct nominees holds each line at most once. */
  lemma {:induction false} DistinctInMultiset(es: seq<Entry>, e: Entry)
    requires NomineesDistinct(es)
    ensures multiset(es)[e] <= 1
  {
    if es != [] {
      var init, last := es[..|es| - 1], es[|es| - 1];
      assert es == init + [last];
      DistinctInMultiset(init, e);
    }
  }

  // ---------------------------------------------------------------------
  // The tally of a category as the count handler promises it.

  /** Each category's lines are sorted by score, highest first. */
  lemma TallySorted(nominees: seq<Nominee>, votes: seq<VoteRow>, c: CategoryId)
    ensures SortedDesc(TallyCategory(nominees, votes, c))
  {
    SortDescProps(Unsorted(nominees, votes, c));
  }

  /** Lines of equal score keep nominee query order. */
  lemma TallyStable(nominees: seq<Nominee>, votes: seq<VoteRow>, c: CategoryId, v: nat)
    ensures WithScore(TallyCategory(nominees, votes, c), v) == WithScore(Unsorted(nominees, votes, c), v)
  {
    SortDescProps(Unsorted(nominees, votes, c));
  }

  /** A category's lines are exactly its nominees' lines, each with its own
      counts. */
  lemma TallyMembers(nominees: seq<Nominee>, votes: seq<VoteRow>, c: CategoryId, e: Entry)
    ensures e in TallyCategory(nominees, votes, c) <==>
      InCategory(nominees, e.nominee, c) && e == EntryFor(votes, e.nominee)
  {
    var u := Unsorted(nominees, votes, c);
    SortDescProps(u);
    assert e in SortDesc(u) <==> e in multiset(SortDesc(u));
    assert e in u <==> e in multiset(u);
    UnsortedMembers(nominees, votes, c, e);
  }

  /** Every line counts its nominee's jury votes and public votes, and its
      score weighs them 3 to 7. */
  lemma TallyCounts(nominees: seq<Nominee>, votes: seq<VoteRow>, c: CategoryId, k: nat)
    requires k < |TallyCategory(nominees, votes, c)|
    ensures var e := TallyCategory(nominees, votes, c)[k];
      && e.juryVotes == CountVotes(votes, e.nominee, true)
      && e.userVotes == CountVotes(votes, e.nominee, false)
      && e.score == 3 * e.juryVotes + 7 * e.userVotes
      && InCategory(nominees, e.nominee, c)
  {
    TallyMembers(nominees, votes, c, TallyCategory(nominees, votes, c)[k]);
  }

  /** A category's tally lists a nominee exactly when it belongs to the
      category. */
  lemma TallyListsEachNominee(nominees: seq<Nominee>, votes: seq<VoteRow>, c: CategoryId, n: NomineeId)
    ensures var r := TallyCategory(nominees, votes, c);
      (exists k :: 0 <= k < |r| && r[k].nominee == n) <==> InCategory(nominees, n, c)
  {
    var r := TallyCategory(nominees, votes, c);
    TallyMembers(nominees, votes, c, EntryFor(votes, n));
    if InCategory(nominees, n, c) {
      var k :| 0 <= k < |r| && r[k] == EntryFor(votes, n);
    }
    if exists k :: 0 <= k < |r| && r[k].nominee == n {
      var k :| 0 <= k < |r| && r[k].nominee == n;
      TallyMembers(nominees, votes, c, r[k]);
    }
  }

  /** With unique nominee keys, no nominee is listed twice in a category. */
  lemma TallyListsNomineeOnce(nominees: seq<Nominee>, votes: seq<VoteRow>, c: CategoryId)
    requires IdsDistinct(nominees)
    ensures NomineesDistinct(TallyCategory(nominees, votes, c))
  {
    var u := Unsorted(nominees, votes, c);
    var r := SortDesc(u);
    SortDescProps(u);
    UnsortedDistinct(nominees, votes, c);
    forall i, j | 0 <= i < j < |r| ensures r[i].nominee != r[j].nominee {
      if r[i].nominee == r[j].nominee {
        TallyMembers(nominees, votes, c, r[i]);
        TallyMembers(nominees, votes, c, r[j]);
        RepeatedInMultiset(r, i, j);
        DistinctInMultiset(u, r[i]);
      }
    }
  }
}
