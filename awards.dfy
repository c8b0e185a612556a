/** The award database as the request handlers see it: one object holding
    every table the handlers read or write, and one method per handler. */
module Awards {
  import opened Common
  import Stages
  import opened Tokens
  import opened Profiles
  import opened Votes
  import opened Tally
  import opened Results

  /** A row of SuggestedCategory; `approved` starts False and only the admin
      site changes it. */
  datatype SuggestedCategoryRow = SuggestedCategoryRow(name: string, description: string,
                                                       user: Option<UserId>, approved: bool, created: nat)

  /** A row of SuggestedNominee. */
  datatype SuggestedNomineeRow = SuggestedNomineeRow(category: CategoryId, name: string, description: string,
                                                     user: Option<UserId>, approved: bool, created: nat)

  /** The submitted fields of a suggestion form. */
  datatype Form = Form(name: string, description: string)

  /** The form's validation: the name is required and at most 200 characters,
      the description may be blank. */
  predicate FormValid(f: Form) {
    0 < |f.name| <= 200
  }

  /** What a handler answers. `Render` carries the template and, where the
      template gets one, its message or link. */
  datatype Response =
    | LoginRedirect        // login_required with no signed-in user
    | AdminLoginRedirect   // staff_member_required with no staff user
    | NotFound
    | Render(template: string, detail: Option<string>)
    | Redirect(view: string)
    | ServerError          // an exception escapes the handler
    | JsonLink(link: string)
    | JsonError(status: nat, error: string)

  /** The path of the jury login link for the token with digits `h`. */
  function JuryLink(h: string): string
    requires |h| == 32
  {
    "/jury-login/" + UuidString(h) + "/"
  }

  /** Every table at once, so that a contract can say that a handler changed
      one table and nothing else. */
  datatype State = State(
    config: Option<Stages.AwardConfig>,
    usernames: seq<string>,
    profiles: ProfileTable,
    categories: seq<CategoryId>,
    nominees: seq<Nominee>,
    suggestedCategories: seq<SuggestedCategoryRow>,
    suggestedNominees: seq<SuggestedNomineeRow>,
    votes: seq<VoteRow>,
    tokens: map<string, JuryToken>,
    finalResults: seq<FinalResult>)

  /** What redeeming the token with digits `h` at time `now` does to the
      state `s`, giving `s'`. An invalid token is refused and nothing is
      written. A valid unbound token gets a new user named after it, which
      fails without a write when that name is taken. Otherwise the token's
      user, new or old, is made jury and signed in, and the token is bound to
      it and marked used; nothing else changes. */
  ghost predicate RedeemOutcome(s: State, h: string, now: nat, resp: Response, signedIn: Option<UserId>, s': State)
    requires h in s.tokens && |h| >= 8
  {
    var tok := s.tokens[h];
    if !IsValid(tok, now) then
      resp == Render("token_invalid.html", None) && signedIn.None? && s' == s
    else if tok.user.None? && JuryUsername(h) in s.usernames then
      resp == ServerError && signedIn.None? && s' == s
    else
      && resp == Redirect("index")
      && signedIn.Some?
      && (tok.user.Some? ==> signedIn == tok.user && s'.usernames == s.usernames)
      && (tok.user.None? ==>
            signedIn == Some(|s.usernames|) && s'.usernames == s.usernames + [JuryUsername(h)])
      && s' == s.(usernames := s'.usernames,
                  profiles := s.profiles[signedIn.value := true],
                  tokens := s.tokens[h := tok.(user := signedIn, used := true)])
  }

  /** A successful redemption leaves the token used and bound to the signed
      in user, whose profile is jury; redeeming the token again, at any time,
      is refused and writes nothing. */
  lemma RedeemOnce(s: State, h: string, now: nat, resp: Response, signedIn: Option<UserId>, s': State,
                   later: nat, resp2: Response, signedIn2: Option<UserId>, s'': State)
    requires h in s.tokens && |h| >= 8
    requires RedeemOutcome(s, h, now, resp, signedIn, s') && resp == Redirect("index")
    ensures signedIn.Some? && h in s'.tokens
    ensures s'.tokens[h].used && s'.tokens[h].user == signedIn
    ensures signedIn.value in s'.profiles && s'.profiles[signedIn.value]
    ensures RedeemOutcome(s', h, later, resp2, signedIn2, s'') ==>
      resp2 == Render("token_invalid.html", None) && signedIn2.None? && s'' == s'
  {
    UsedNeverValid(s'.tokens[h], later);
  }

  /** The profile writes of redeeming an unbound token as the handler runs
      them, for the new user `u`. Creating the user runs the post-save
      receivers, and the profile they create stays cached on the user object
      with the flag it was created with. Each later save of the user runs
      `save_user_profile`, which writes that cached copy back: once for
      `user.save()`, and once more when signing in saves the user's last
      login time. The flag is set in between, on a second copy that
      `get_or_create` reads from the table. `None` is the exception the
      receivers raise when the user already has a profile. */
  function UnboundRedeemProfilesAsWritten(p: ProfileTable, u: UserId): (r: Option<ProfileTable>)
    ensures r.Some? <==> u !in p
    ensures r.Some? ==> r.value.Keys == p.Keys + {u}
  {
    match OnUserSaved(p, u, true)
    case None => None
    case Some(created) =>
      var cached := created[u];
      var resaved := created[u := cached];
      var fetched := GetOrCreate(resaved, u);
      var madeJury := fetched[u := true];
      Some(madeJury[u := cached])
  }

  /** On the unbound path the handler as written leaves the new user's
      profile not jury, although the redemption the model performs makes it
      jury: every valid unbound token whose jury name is free shows it. */
  lemma RedeemAsWrittenLosesJury(s: State, h: string, now: nat, resp: Response, signedIn: Option<UserId>, s': State)
    requires h in s.tokens && |h| >= 8
    requires forall v :: v in s.profiles ==> v < |s.usernames|
    requires s.tokens[h].user.None?
    requires RedeemOutcome(s, h, now, resp, signedIn, s') && resp == Redirect("index")
    ensures signedIn == Some(|s.usernames|) && signedIn.value !in s.profiles
    ensures s'.profiles[signedIn.value]
    ensures var w := UnboundRedeemProfilesAsWritten(s.profiles, signedIn.value);
      && w.Some? && !w.value[signedIn.value]
      && forall v :: v in s.profiles ==> w.value[v] == s.profiles[v]
  {
    var u := |s.usernames|;
    assert u !in s.profiles;
    NewUserGetsProfile(s.profiles, u);
  }

  class AwardDb {
    /** `AwardConfig.objects.first()`. */
    var config: Option<Stages.AwardConfig>
    /** User names; a user's key is its position. */
    var usernames: seq<string>
    var profiles: ProfileTable
    var categories: seq<CategoryId>
    var nominees: seq<Nominee>
    var suggestedCategories: seq<SuggestedCategoryRow>
    var suggestedNominees: seq<SuggestedNomineeRow>
    /** The Vote table in key order. */
    var votes: seq<VoteRow>
    /** The JuryToken table, keyed by the token's hex digits. */
    var tokens: map<string, JuryToken>
    /** The FinalResult table in key order. */
    var finalResults: seq<FinalResult>

    ghost function Snapshot(): State
      reads this
    {
      State(config, usernames, profiles, categories, nominees, suggestedCategories,
            suggestedNominees, votes, tokens, finalResults)
    }

    /** The keys and links the database enforces: unique user names, one
        profile per existing user, tokens keyed by UUID digits and bound to
        existing users, the unique keys of Vote and FinalResult, and unique
        category and nominee keys. */
    ghost predicate Valid()
      reads this
    {
      && Distinct(usernames)
      && (forall u :: u in profiles ==> u < |usernames|)
      && (forall h :: h in tokens ==> IsUuidHex(h))
      && (forall h :: h in tokens && tokens[h].user.Some? ==> tokens[h].user.value < |usernames|)
      && UniqueVotes(votes)
      && UniqueResults(finalResults)
      && Distinct(categories)
      && IdsDistinct(nominees)
    }

    /** A database with the given configuration, categories and nominees and
        no users, suggestions, votes, tokens or results. */
    constructor (config: Option<Stages.AwardConfig>, categories: seq<CategoryId>, nominees: seq<Nominee>)
      requires Distinct(categories) && IdsDistinct(nominees)
      ensures Valid()
      ensures Snapshot() == State(config, [], map[], categories, nominees, [], [], [], map[], [])
    {
      this.config := config;
      usernames := [];
      profiles := map[];
      this.categories := categories;
      this.nominees := nominees;
      suggestedCategories := [];
      suggestedNominees := [];
      votes := [];
      tokens := map[];
      finalResults := [];
    }

    // -------------------------------------------------------------------
    // Users and profiles.

    /** `User.objects.create(username=name)` with its post-save receivers:
        the user name is unique, so a taken name raises and nothing is
        written; otherwise the user is appended and gets a non-jury profile. */
    method CreateUser(name: string) returns (u: Option<UserId>)
      requires Valid()
      modifies this`usernames, this`profiles
      ensures Valid()
      ensures name in old(usernames) ==> u.None? && usernames == old(usernames) && profiles == old(profiles)
      ensures name !in old(usernames) ==>
        && u == Some(|old(usernames)|)
        && usernames == old(usernames) + [name]
        && profiles == old(profiles)[|old(usernames)| := false]
    {
      if name in usernames {
        return None;
      }
      var id := |usernames|;
      usernames := usernames + [name];
      NewUserGetsProfile(profiles, id);
      profiles := OnUserSaved(profiles, id, true).value;
      u := Some(id);
    }

    /** `user.save()` on an existing user: the receivers save its profile,
        which fails when the user has none. */
    method SaveUser(u: UserId) returns (ok: bool)
      requires Valid()
      modifies this`profiles
      ensures Valid() && profiles == old(profiles)
      ensures ok <==> u in old(profiles)
    {
      ResaveAddsNoProfile(profiles, u);
      var r := OnUserSaved(profiles, u, false);
      ok := r.Some?;
      if ok {
        profiles := r.value;
      }
    }

    /** The social login pipeline step: make sure the user has a profile and
        leave its jury flag as it is. */
    method SaveJuryStatus(u: UserId)
      requires Valid() && u < |usernames|
      modifies this
      ensures Valid()
      ensures Snapshot() == old(Snapshot()).(profiles := GetOrCreate(old(profiles), u))
    {
      if u !in profiles {
        profiles := profiles[u := false];
      }
      var isJury := profiles[u];
      if isJury {
        return;
      }
      profiles := profiles[u := isJury];
    }

    // -------------------------------------------------------------------
    // Suggestions.

    /** The category suggestion page. A valid form is saved as an unapproved
        suggestion of the signed-in user; nothing else is ever written. */
    method SuggestCategory(caller: Option<UserId>, post: Option<Form>, now: nat) returns (resp: Response)
      requires Valid()
      modifies this
      ensures Valid()
      ensures caller.None? ==> resp == LoginRedirect && Snapshot() == old(Snapshot())
      ensures caller.Some? && Stages.Closed(old(config), Stages.ProposeCategory) ==>
        && resp == Render("closed.html", Some(Stages.ClosedMessage(Stages.ProposeCategory)))
        && Snapshot() == old(Snapshot())
      ensures caller.Some? && !Stages.Closed(old(config), Stages.ProposeCategory) ==>
        if post.Some? && FormValid(post.value) then
          && resp == Redirect("index")
          && Snapshot() == old(Snapshot()).(suggestedCategories := old(suggestedCategories) +
               [SuggestedCategoryRow(post.value.name, post.value.description, caller, false, now)])
        else
          resp == Render("suggest_category.html", None) && Snapshot() == old(Snapshot())
    {
      if caller.None? {
        return LoginRedirect;
      }
      if Stages.Closed(config, Stages.ProposeCategory) {
        return Render("closed.html", Some(Stages.ClosedMessage(Stages.ProposeCategory)));
      }
      if post.Some? && FormValid(post.value) {
        var row := SuggestedCategoryRow(post.value.name, post.value.description, caller, false, now);
        suggestedCategories := suggestedCategories + [row];
        return Redirect("index");
      }
      resp := Render("suggest_category.html", None);
    }

    /** The nominee suggestion page of one category: an unknown category is
        answered before the stage is looked at. */
    method SuggestNominee(caller: Option<UserId>, category: CategoryId, post: Option<Form>, now: nat)
      returns (resp: Response)
      requires Valid()
      modifies this
      ensures Valid()
      ensures caller.None? ==> resp == LoginRedirect && Snapshot() == old(Snapshot())
      ensures caller.Some? && category !in old(categories) ==> resp == NotFound && Snapshot() == old(Snapshot())
      ensures caller.Some? && category in old(categories) && Stages.Closed(old(config), Stages.ProposeNominee) ==>
        && resp == Render("closed.html", Some(Stages.ClosedMessage(Stages.ProposeNominee)))
        && Snapshot() == old(Snapshot())
      ensures caller.Some? && category in old(categories) && !Stages.Closed(old(config), Stages.ProposeNominee) ==>
        if post.Some? && FormValid(post.value) then
          && resp == Redirect("categories_list")
          && Snapshot() == old(Snapshot()).(suggestedNominees := old(suggestedNominees) +
               [SuggestedNomineeRow(category, post.value.name, post.value.description, caller, false, now)])
        else
          resp == Render("suggest_nominee.html", None) && Snapshot() == old(Snapshot())
    {
      if caller.None? {
        return LoginRedirect;
      }
      if category !in categories {
        return NotFound;
      }
      if Stages.Closed(config, Stages.ProposeNominee) {
        return Render("closed.html", Some(Stages.ClosedMessage(Stages.ProposeNominee)));
      }
      if post.Some? && FormValid(post.value) {
        var row := SuggestedNomineeRow(category, post.value.name, post.value.description, caller, false, now);
        suggestedNominees := suggestedNominees + [row];
        return Redirect("categories_list");
      }
      resp := Render("suggest_nominee.html", None);
    }

    // -------------------------------------------------------------------
    // Voting.

    /** The voting page of one category. A POST naming an existing nominee
        writes the caller's vote with the caller's current jury flag; every
        other request and every failure leaves the database as it was. */
    method Vote(caller: Option<UserId>, category: CategoryId, isPost: bool, nominee: Option<NomineeId>, now: nat)
      returns (resp: Response)
      requires Valid()
      modifies this
      ensures Valid()
      ensures caller.None? ==> resp == LoginRedirect
      ensures caller.Some? && category !in old(categories) ==> resp == NotFound
      ensures caller.Some? && category in old(categories) && Stages.Closed(old(config), Stages.CastVote) ==>
        resp == Render("closed.html", Some(Stages.ClosedMessage(Stages.CastVote)))
      ensures caller.Some? && category in old(categories) && !Stages.Closed(old(config), Stages.CastVote) ==>
        && (!isPost ==> resp == Render("vote.html", None))
        && (isPost && nominee.None? ==> resp == Redirect("categories_list"))
        && (isPost && nominee.Some? && !NomineeExists(old(nominees), nominee.value) ==> resp == NotFound)
        && (isPost && nominee.Some? && NomineeExists(old(nominees), nominee.value) ==>
              if caller.value !in old(profiles) then resp == ServerError
              else
                var r := CastVote(old(votes), old(nominees), caller.value, category, nominee.value,
                                  old(profiles)[caller.value], now);
                if r.None? then resp == ServerError
                else resp == Redirect("categories_list") && Snapshot() == old(Snapshot()).(votes := r.value))
      ensures resp != Redirect("categories_list") || nominee.None? ==> Snapshot() == old(Snapshot())
      ensures Snapshot() == old(Snapshot()).(votes := votes)
    {
      if caller.None? {
        return LoginRedirect;
      }
      var u := caller.value;
      if category !in categories {
        return NotFound;
      }
      if Stages.Closed(config, Stages.CastVote) {
        return Render("closed.html", Some(Stages.ClosedMessage(Stages.CastVote)));
      }
      if !isPost {
        return Render("vote.html", None);
      }
      if nominee.None? {
        return Redirect("categories_list");
      }
      var n := nominee.value;
      if !NomineeExists(nominees, n) {
        return NotFound;
      }
      if u !in profiles {
        // reading the caller's profile raises
        return ServerError;
      }
      var isJury := profiles[u];
      ghost var r := CastVote(votes, nominees, u, category, n, isJury, now);
      var existing := FirstVoteIn(votes, nominees, u, category, 0);
      if existing.Some? {
        var k := existing.value;
        if KeyTaken(votes, u, n, k) {
          // the save breaks the unique key on (user, nominee)
          return ServerError;
        }
        votes := votes[k := votes[k].(nominee := n, jury := isJury)];
      } else {
        if KeyTaken(votes, u, n, -1) {
          return ServerError;
        }
        votes := votes + [VoteRow(u, n, isJury, now)];
      }
      assert r == Some(votes);
      CastVoteKeepsUnique(old(votes), nominees, u, category, n, isJury, now);
      resp := Redirect("categories_list");
    }

    // -------------------------------------------------------------------
    // Counting.

    /** The staff count page: the tally of every category, and on POST its
        commit into the FinalResult table. There is no stage gate. */
    method Count(isStaff: bool, isPost: bool, now: nat) returns (resp: Response, data: seq<CategoryTally>)
      requires Valid()
      modifies this
      ensures Valid()
      ensures !isStaff ==> resp == AdminLoginRedirect && data == [] && Snapshot() == old(Snapshot())
      ensures isStaff ==> data == TallyAll(old(categories), old(nominees), old(votes))
      ensures isStaff && !isPost ==> resp == Render("count.html", None) && Snapshot() == old(Snapshot())
      ensures isStaff && isPost ==>
        && resp == Redirect("results_public")
        && Snapshot() == old(Snapshot()).(finalResults := Commit(old(finalResults), data, now))
    {
      if !isStaff {
        return AdminLoginRedirect, [];
      }
      data := ComputeTally(categories, nominees, votes);
      if !isPost {
        return Render("count.html", None), data;
      }
      CommitTally(data, now);
      resp := Redirect("results_public");
    }

    /** The commit loop of the count page: one `update_or_create` per line
        of the tally, category by category. */
    method CommitTally(data: seq<CategoryTally>, now: nat)
      requires UniqueResults(finalResults)
      modifies this`finalResults
      ensures finalResults == Commit(old(finalResults), data, now)
      ensures UniqueResults(finalResults)
    {
      ghost var t := finalResults;
      for i := 0 to |data|
        invariant finalResults == CommitRows(t, UpdatesOf(data[..i]), now)
      {
        CommitCategory(data[i], now);
        CommitRowsConcat(t, UpdatesOf(data[..i]), RowsOf(data[i]), now);
        UpdatesOfSnoc(data, i);
      }
      assert data[..|data|] == data;
      CommitRowsOutcome(t, UpdatesOf(data), now);
    }

    /** The inner loop of the commit: the lines of one category. */
    method CommitCategory(d: CategoryTally, now: nat)
      modifies this`finalResults
      ensures finalResults == CommitRows(old(finalResults), RowsOf(d), now)
    {
      var rows := RowsOf(d);
      for j := 0 to |d.results|
        invariant finalResults == CommitRows(old(finalResults), rows[..j], now)
      {
        CommitRowsSnoc(old(finalResults), rows[..j], rows[j], now);
        assert rows[..j + 1] == rows[..j] + [rows[j]];
        finalResults := UpdateOrCreate(finalResults, Update(d.category, d.results[j]), now);
      }
      assert rows[..|d.results|] == rows;
    }

    /** The public results page: each category's winner, read only. */
    method ResultsPublic() returns (winners: seq<Winner>)
      ensures winners == Winners(categories, finalResults)
    {
      winners := PublicResults(categories, finalResults);
    }

    // -------------------------------------------------------------------
    // Jury tokens.

    /** Following a jury link. The route accepts only the text of a UUID, and
        a token that is not in the table is not found; the token that is
        there is redeemed. */
    method JuryLogin(text: string, now: nat) returns (resp: Response, signedIn: Option<UserId>)
      requires Valid()
      modifies this
      ensures Valid()
      ensures (ParseUuid(text).None? || ParseUuid(text).value !in old(tokens)) ==>
        resp == NotFound && signedIn.None? && Snapshot() == old(Snapshot())
      ensures ParseUuid(text).Some? && ParseUuid(text).value in old(tokens) ==>
        RedeemOutcome(old(Snapshot()), ParseUuid(text).value, now, resp, signedIn, Snapshot())
    {
      var parsed := ParseUuid(text);
      if parsed.None? || parsed.value !in tokens {
        return NotFound, None;
      }
      resp, signedIn := RedeemToken(parsed.value, now);
    }

    /** The redemption of the token with digits `h`, step by step. */
    method RedeemToken(h: string, now: nat) returns (resp: Response, signedIn: Option<UserId>)
      requires Valid() && h in tokens
      modifies this
      ensures Valid()
      ensures RedeemOutcome(old(Snapshot()), h, now, resp, signedIn, Snapshot())
    {
      ghost var s := Snapshot();
      var tok := tokens[h];
      if !IsValid(tok, now) {
        return Render("token_invalid.html", None), None;
      }
      var user: UserId;
      if tok.user.None? {
        var created := CreateUser(JuryUsername(h));
        if created.None? {
          return ServerError, None;
        }
        user := created.value;
        var saved := SaveUser(user);
        assert saved;
        MakeJury(user);
        assert profiles == s.profiles[user := true];
        tok := tok.(user := Some(user));
        tokens := tokens[h := tok];
      } else {
        user := tok.user.value;
        MakeJury(user);
      }
      signedIn := Some(user);
      tok := tok.(used := true);
      tokens := tokens[h := tok];
      assert tok == s.tokens[h].(user := signedIn, used := true);
      assert Snapshot() == s.(usernames := usernames, profiles := s.profiles[user := true], tokens := s.tokens[h := tok]);
      resp := Redirect("index");
    }

    /** `get_or_create` on the user's profile, then its jury flag set and
        saved. */
    method MakeJury(u: UserId)
      requires Valid() && u < |usernames|
      modifies this`profiles
      ensures Valid() && profiles == old(profiles)[u := true]
    {
      profiles := GetOrCreate(profiles, u);
      profiles := profiles[u := true];
    }

    /** The staff token page: a POST creates a token under the unused digits
        `key` and shows its link. */
    method GenerateJuryToken(isStaff: bool, isPost: bool, key: string, now: nat) returns (resp: Response)
      requires Valid()
      requires isStaff && isPost ==> IsUuidHex(key) && key !in tokens
      modifies this
      ensures Valid()
      ensures !isStaff ==> resp == AdminLoginRedirect && Snapshot() == old(Snapshot())
      ensures isStaff && !isPost ==> resp == Render("generate_token.html", None) && Snapshot() == old(Snapshot())
      ensures isStaff && isPost ==>
        && resp == Render("generate_token.html", Some(JuryLink(key)))
        && Snapshot() == old(Snapshot()).(tokens := old(tokens)[key := NewToken(now)])
    {
      if !isStaff {
        return AdminLoginRedirect;
      }
      var link: Option<string> := None;
      if isPost {
        tokens := tokens[key := NewToken(now)];
        link := Some(JuryLink(key));
      }
      resp := Render("generate_token.html", link);
    }

    /** The staff token endpoint: as the page, answering in JSON, and refusing
        any method but POST with status 400. */
    method GenerateJuryTokenAjax(isStaff: bool, isPost: bool, key: string, now: nat) returns (resp: Response)
      requires Valid()
      requires isStaff && isPost ==> IsUuidHex(key) && key !in tokens
      modifies this
      ensures Valid()
      ensures !isStaff ==> resp == AdminLoginRedirect && Snapshot() == old(Snapshot())
      ensures isStaff && !isPost ==> resp == JsonError(400, "Invalid method") && Snapshot() == old(Snapshot())
      ensures isStaff && isPost ==>
        && resp == JsonLink(JuryLink(key))
        && Snapshot() == old(Snapshot()).(tokens := old(tokens)[key := NewToken(now)])
    {
      if !isStaff {
        return AdminLoginRedirect;
      }
      if isPost {
        tokens := tokens[key := NewToken(now)];
        return JsonLink(JuryLink(key));
      }
      resp := JsonError(400, "Invalid method");
    }
  }
}
