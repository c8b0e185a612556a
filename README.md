# Online award: a Dafny model of its voting core

The system is a small Django web application for an online award. Users
suggest categories and nominees, and then vote in each category, a later
vote on a category's page replacing the earlier one. The nominee posted
is not checked against the page's category, so a user can end with two
votes in one category, or with none in the category they voted on. Staff
count the votes into a FinalResult table, and a public page shows each
category's winner. A single AwardConfig row holds the current stage and
gates which user action is accepted. Staff can also hand out single-use
jury links: following one is meant to sign the holder in as a jury
member, whose votes are weighed 3 to 7 against public votes (but see
"## Findings").

The model keeps the database in memory:

- `stages.dfy`: the stage codes and their labels, the default
  configuration, and the gate that each user action passes.
- `tokens.dfy`: the JuryToken row, its validity and default expiry, the
  text forms of its UUID, and the name of the user that a redemption
  creates.
- `profiles.dfy`: the UserProfile table, the post-save receivers on User,
  and `get_or_create`.
- `votes.dfy`: the Vote table, its unique key, and the vote write
  (update the user's vote in the category, or insert one).
- `tally.dfy`: the per-nominee counts, the score, the stable descending
  sort, and the tally loop.
- `results.dfy`: the FinalResult table, the `update_or_create` commit,
  and the winner selection.
- `awards.dfy`: the class `AwardDb`. It holds every table as a field and
  has one method per request handler. Each handler's contract gives the
  response and the whole new state.

Modelling choices:

- A score is stored as `3·jury + 7·user`, ten times the source's floating
  point `0.3·jury + 0.7·user`, so every comparison is exact.
- Time is a `nat` count of microseconds, so one day is 86 400 000 000.
- A token's key is the 32 lowercase hex digits of its UUID. The link
  shows the UUID in its 8-4-4-4-12 text form, and the login route accepts
  only that form.
- Each table with a queried order is a sequence in primary-key order, so
  `first()` is the lowest position. Users are keyed by their position.
- A write that breaks a unique key raises IntegrityError in the source.
  The model answers `ServerError` and writes nothing.
- Two decorators become parameters:
  - `login_required` becomes the optional signed-in user `caller`;
  - `staff_member_required` becomes the flag `isStaff`.

What the code does, and the model with it:

- The score is the plain weighted sum of the two counts. There is no
  per-electorate normalisation.
- Suggestions are saved with no per-user limit.
- The count page has no stage gate.
- A jury link always binds the token's own user, or creates one. It never
  binds the user already signed in.
- When no AwardConfig row exists, every stage gate is open.
- The voting handler looks up the posted nominee by key alone, not within
  the page's category.

## Model

| member | source | states |
|---|---|---|
| Stages.DictGet | awards/models.py:52-53 | the result is the value of the last pair with the key, or the default when no pair has the key (how the dict is built from the pairs) |
| Stages.NewAwardConfig | awards/models.py:37-47 | a new configuration row holds the declared defaults: the name "Онлайн-премия", a blank description, and stage `suggest_cat` |
| Stages.RequiredStage | awards/views.py:46 | each user action needs one stage code: `suggest_cat` to suggest a category, `suggest_nominee` to suggest a nominee, `voting` to vote |
| Stages.ClosedMessage | awards/views.py:47 | the message of the closed page for each action: category suggestion here, nominee suggestion at line 84, voting at line 109 |
| Stages.Closed | awards/views.py:45-47 | an action is refused exactly when a configuration row exists and its stage is not the action's code |
| Stages.StageDisplay | awards/models.py:40-53 | a stage code of the five choices is shown with its paired label; any other string is shown as "Неизвестно" |
| Stages.StageDisplayKnownIff | awards/models.py:52-53 | the label is "Неизвестно" exactly when the code is not one of the choices |
| Stages.NewConfigStage | awards/models.py:37-47 | a new configuration is in stage `suggest_cat`, shown as its label |
| Stages.GateOpenWithoutConfig | awards/views.py:45-47 | with no configuration row, no action is refused |
| Stages.GateWithConfig | awards/views.py:82-84 | with a configuration row, an action passes exactly when the stored stage is the one the action needs |
| Stages.GateAtMostOneAction | awards/views.py:106-109 | at most one action passes at a time, and none in the `finished` and `results` stages |
| Stages.NewConfigGate | awards/views.py:45-47 | a new configuration admits category suggestions and nothing else |
| Tokens.NewTokenValidity | awards/models.py:161-173 | a new token is unused and unbound, and is valid from its creation up to, but not including, one day later |
| Tokens.DefaultExpire | awards/models.py:161-162 | the default expiry is one day after the moment the row is made |
| Tokens.NewToken | awards/models.py:165-170 | a new token row is unused, unbound, created now and expires at the default expiry |
| Tokens.IsValid | awards/models.py:172-173 | a token is valid exactly when it is not used and its expiry is strictly after now |
| Tokens.ExpiredAtDeadline | awards/models.py:172-173 | at the expiry instant a token is already invalid (the comparison is strict) |
| Tokens.InvalidStaysInvalid | awards/models.py:172-173 | with `used` unchanged, a token that is invalid stays invalid at every later time |
| Tokens.UsedNeverValid | awards/models.py:172-173 | a used token is invalid at every time |
| Tokens.IsUuidHex | awards/models.py:166 | a token's key, the hex form of its UUID, is thirty-two lowercase hexadecimal digits |
| Tokens.UuidString | awards/views.py:247 | the text form of a UUID in the link: its digits grouped 8-4-4-4-12 and joined by hyphens |
| Tokens.ParseUuid | awards/urls.py:37 | whatever the route accepts is 32 hex digits |
| Tokens.UuidRoundTrip | awards/views.py:247 | the route parses the link text of any token back to that token; every text the route accepts is the link text of the token it names |
| Tokens.JuryUsername | awards/views.py:195 | the name of the user a redemption creates: "jury_" followed by the token's first eight hex digits |
| Tokens.JuryUsernameCollision | awards/views.py:195 | two tokens yield the same jury user name exactly when their first eight hex digits agree |
| Profiles.GetOrCreate | awards/pipeline.py:10 | afterwards the user has a profile; existing profiles keep their flags; a new profile is not jury |
| Profiles.OnUserSaved | awards/models.py:22-30 | the two receivers in order: a newly created user gets a non-jury profile (failing if it had one), then the user's profile is saved (failing if there is none) |
| Profiles.NewUserGetsProfile | awards/models.py:22-30 | saving a newly created user adds exactly one profile, not jury, and changes no other |
| Profiles.ResaveAddsNoProfile | awards/models.py:28-30 | saving an existing user adds no profile, and fails when the user has none |
| Profiles.GetOrCreateIdempotent | awards/pipeline.py:10-19 | ensuring the profile twice is the same as once |
| Profiles.GetOrCreateKeepsJuryFlag | awards/pipeline.py:13-19 | the jury flag afterwards is the old flag, or false for a new profile: a jury member stays jury and nobody becomes jury |
| Votes.FirstVoteIn | awards/views.py:119 | the result is the lowest-positioned vote of the user among the category's nominees, or none when there is none |
| Votes.UniqueVotes | awards/models.py:140 | the Vote table's unique key: no two rows share a (user, nominee) pair |
| Votes.CastVote | awards/views.py:119-129 | the vote write: the user's first vote in the category is retargeted to the nominee with the jury flag, or a new row is appended; a clash with the (user, nominee) key writes nothing |
| Votes.CastVoteKeepsUnique | awards/models.py:140 | a successful vote write keeps at most one vote per (user, nominee) |
| Votes.CastVoteReplaces | awards/views.py:119-129 | if the user held at most one vote in the category and the nominee is in it, the write succeeds and leaves exactly one vote of the user in the category: for that nominee, with the user's jury flag |
| Votes.CastVoteFrame | awards/views.py:119-129 | the write replaces one vote of the user in the category or appends one row; that row holds the nominee and the jury flag; every other user's vote and the user's votes in other categories are unchanged |
| Votes.CastVoteCanLeaveCategory | awards/views.py:116-123 | because the nominee is not checked against the category, a vote can be moved out of the category it was cast in |
| Votes.CastVoteCanDoubleInCategory | awards/views.py:116-129 | because the nominee is not checked against the category, a vote cast on one category's page for another category's nominee gives the user a second vote in that other category |
| Tally.ComputeTally | awards/views.py:148-165 | the nested loop yields, for each category in order, its nominees' counts sorted by score |
| Tally.CountVotes | awards/views.py:153-154 | the number of the nominee's votes with the given jury flag |
| Tally.EntryFor | awards/views.py:153-161 | a nominee's tally line: its number of jury votes, its number of public votes, and the score 3·jury + 7·public |
| Tally.Score | awards/views.py:155 | ten times the score: 3 per jury vote and 7 per public vote |
| Tally.Unsorted | awards/views.py:149-162 | the lines of the category's nominees, in nominee query order, each with its counts and score |
| Tally.SortDesc | awards/views.py:164 | the stable sort by score, highest first (insertion of each line after all lines scoring at least as much) |
| Tally.TallyCategory | awards/views.py:149-164 | the sorted lines of one category |
| Tally.TallyAll | awards/views.py:148-165 | the tally of every category, in category query order |
| Tally.SortDescSorted | awards/views.py:164 | the sorted list is non-increasing in score |
| Tally.SortDescMultiset | awards/views.py:164 | the sorted list is a permutation of the input |
| Tally.SortDescStable | awards/views.py:164 | lines of equal score keep their input order |
| Tally.InsertDescSorted | awards/views.py:164 | inserting a line into a sorted list keeps it sorted |
| Tally.InsertDescMultiset | awards/views.py:164 | inserting adds exactly the line |
| Tally.InsertDescWithScore | awards/views.py:164 | the inserted line goes after every line of equal score, and the lines of other scores keep their order |
| Tally.TallySorted | awards/views.py:164 | each category's tally is sorted by score, highest first |
| Tally.TallyStable | awards/views.py:164 | nominees with equal scores keep their query order |
| Tally.TallyMembers | awards/views.py:149-162 | a line is in a category's tally exactly when its nominee belongs to the category and the line holds that nominee's counts |
| Tally.TallyCounts | awards/views.py:153-155 | each line's jury count is the number of the nominee's votes with the jury flag, its public count the number without, and its score is 3·jury + 7·public |
| Tally.TallyListsEachNominee | awards/views.py:149-152 | the tally lists a nominee exactly when it belongs to the category |
| Tally.TallyListsNomineeOnce | awards/views.py:152 | no nominee is listed twice in a category |
| Results.FindResult | awards/views.py:171-173 | the result is the first row with the key (no earlier row has it), or none when no row has it |
| Results.UniqueResults | awards/models.py:155 | the FinalResult table's unique key: no two rows share a (category, nominee) pair |
| Results.UpdateOrCreateOutcome | awards/views.py:171-179 | one call updates the values of the row with the key in place, or inserts one; unique keys are kept |
| Results.UpdateOrCreate | awards/views.py:171-179 | one `update_or_create`: the row with the (category, nominee) key takes the new counts and score in place, or a row is appended at time now |
| Results.CommitRows | awards/views.py:168-179 | the calls applied to the table one after the other |
| Results.UpdatesOf | awards/views.py:168-171 | the `update_or_create` calls of the commit loop: category by category, in tally order |
| Results.RowsOf | awards/views.py:170-171 | one call per line of a category's tally, in line order, each with the category |
| Results.Commit | awards/views.py:167-179 | the commit of a tally: its calls category by category, line by line |
| Results.Winners | awards/views.py:229-236 | for each category in order, the nominee of its best row, leaving out categories without rows |
| Results.CommitRowsOutcome | awards/views.py:168-179 | after the calls, each old row keeps its key and creation time and holds its key's last call's values (or its old ones); new rows have fresh keys; every called key has exactly one row |
| Results.CommitWrites | awards/views.py:167-179 | after the commit, every key written has a row holding its last counts and score; rows of other keys are unchanged |
| Results.CountCommit | awards/views.py:148-179 | after counting with POST, every nominee of every category has exactly one row for (category, nominee), holding its jury count, public count and score; other rows are unchanged |
| Results.TallyLastFor | awards/views.py:168-178 | the commit's last write for (c, n) carries nominee n's counts, and there is one exactly when n is a nominee of listed category c |
| Results.CommitIdempotent | awards/views.py:167-179 | committing the same tally twice leaves the table as committing it once |
| Results.BestRow | awards/views.py:233 | the chosen row is in the category and has the highest score, and no earlier row of the category has the same score; none when the category has no row |
| Results.PublicResults | awards/views.py:229-236 | the loop yields each category's winner, in category order |
| Results.WinnersListed | awards/views.py:232-235 | a category is listed exactly when it has at least one row |
| Results.WinnerHasTopScore | awards/views.py:233-235 | a listed winner's score is at least that of every row of its category |
| Awards.RedeemOnce | awards/views.py:188-214 | a successful redemption leaves the token used and bound to the signed-in user, whose profile is jury; a second redemption is refused and writes nothing |
| Awards.RedeemOutcome | awards/views.py:188-214 | the redemption's response and new state: refused with no write when invalid; a server error with no write when a new user's name is taken; otherwise the token's user (new when unbound) is jury and signed in, and the token is bound and used |
| Awards.JuryLink | awards/views.py:247 | the link path: "/jury-login/", the token's UUID text, "/" |
| Awards.FormValid | awards/forms.py:8-26 | a suggestion form is valid when its name has 1 to 200 characters; the description may be blank |
| Awards.RedeemAsWrittenLosesJury | awards/views.py:194-211 | on a valid unbound token, the handler as written ends with the new user's profile not jury, while the redemption modelled ends with it jury; other profiles are untouched |
| Awards.UnboundRedeemProfilesAsWritten | awards/views.py:194-211 | the profile writes of the handler as written on an unbound token: creating the user fails when it already has a profile, and otherwise adds exactly its profile; the flag cached at creation is written back after the jury flag is set |
| Awards.AwardDb.constructor | awards/models.py:36-47 | the database starts with its configuration, categories and nominees, and is otherwise empty |
| Awards.AwardDb.Valid | awards/models.py:14-169 | the keys and links kept by the tables: unique user names, one profile per existing user (line 15), token keys that are UUID hex digits (line 166) bound to existing users (line 169), the unique keys of Vote (line 140) and FinalResult (line 155), and unique category and nominee keys |
| Awards.AwardDb.CreateUser | awards/models.py:22-26 | a new user name gets a new user with a non-jury profile; a taken one fails with no change |
| Awards.AwardDb.SaveUser | awards/models.py:28-30 | re-saving a user changes nothing, and fails when the user has no profile |
| Awards.AwardDb.SaveJuryStatus | awards/pipeline.py:4-19 | the profile table becomes the get-or-create of the user's profile; nothing else changes |
| Awards.AwardDb.SuggestCategory | awards/views.py:43-59 | an anonymous caller is sent to log in; a closed stage shows its message and writes nothing; a valid form appends one unapproved suggestion by the caller; any other request writes nothing |
| Awards.AwardDb.SuggestNominee | awards/views.py:79-97 | as for categories, with an unknown category answered Not Found before the stage is checked |
| Awards.AwardDb.Vote | awards/views.py:103-133 | the responses in the handler's order (login, unknown category, closed stage, GET, no nominee, unknown nominee, no profile, key clash); only a successful write changes anything, and it changes only the vote table, to the vote write with the caller's current jury flag |
| Awards.AwardDb.Count | awards/views.py:139-182 | non-staff are sent to log in; the tally is the one of the current tables; a POST commits it into FinalResult and nothing else changes |
| Awards.AwardDb.CommitTally | awards/views.py:167-179 | the loop's table is the commit of the tally, and keeps unique keys |
| Awards.AwardDb.CommitCategory | awards/views.py:170-179 | the inner loop applies one category's calls in order |
| Awards.AwardDb.ResultsPublic | awards/views.py:229-236 | the page lists the winners of the current table |
| Awards.AwardDb.JuryLogin | awards/views.py:188-214 | text that is not a UUID, or a token not in the table, is Not Found with no write; otherwise it is the redemption of that token |
| Awards.AwardDb.RedeemToken | awards/views.py:190-214 | an invalid token is refused with no write; an unbound token gets a new user named "jury_" and its first eight hex digits, which fails with no write if the name is taken; the user is made jury and signed in; the token is bound and marked used; nothing else changes |
| Awards.AwardDb.MakeJury | awards/views.py:199-201 | the user's profile, created if missing, has the jury flag |
| Awards.AwardDb.GenerateJuryToken | awards/views.py:242-248 | non-staff are sent to log in; a POST adds one new token at its defaults and shows the link to it; a GET writes nothing |
| Awards.AwardDb.GenerateJuryTokenAjax | awards/views.py:251-258 | as the page, answering with the link in JSON, or status 400 for any other method |

## Left out

- The VK login handlers are left out. They are routed but not defined in the handler module, and they talk to a foreign identity provider.
- Framework I/O is reduced to the returned `Response`: sessions, template rendering and host names. A jury link is its path; `build_absolute_uri` would also add the scheme and host.
- The index, categories-list and stage-finished pages are left out. They only read and render.
- The forms are reduced to the validity test on their name. A name must be 1 to 200 characters; Django's stripping of surrounding whitespace is not modelled.
- Vote: the posted nominee value is modelled as an optional integer id. Non-numeric text, which raises in the lookup, is not modelled.
- The order of tied rows in `order_by('-total_score').first()` is not defined by the database. The model picks the tied row that comes first in key order.
- The score is the exact value `3·jury + 7·user`. The floating-point rounding of the stored `total_score` is not modelled.
- UUID generation is left out. A new token's digits are a parameter, required to be 32 hex digits and not already in the table.
- Clock reads are left out. The current time is a parameter, and a handler reads it once.
- Concurrency is left out. Each handler is one atomic step, with no races between two first votes or two redemptions.
- Administrative edits are left out: stage changes, suggestion approval, and creating categories and nominees. So are deletes and cascades. `create_superuser.py` and the URL and admin configuration are not part of this model.
- Awards.AwardDb.RedeemToken: Django's `login()` at awards/views.py:211 is modelled only as the returned signed-in user. It also saves the user's last login time, and that save runs the receiver at awards/models.py:28-30; on an unbound token this writes a stale profile with the jury flag False (see "## Findings"). The model performs the intended redemption instead. With several authentication backends configured, `login()` without a backend raises before the token is marked used; the settings are not part of this model.
- `set_unusable_password` is left out. A user's password is not part of the model.

## Findings

| source | as written | input that shows it | evidently intended | confidence | as-written member | corrected member |
|---|---|---|---|---|---|---|
| awards/views.py:194-211 | the profile made when the user is created stays cached on the user object with the jury flag False; `login()` saves the user's last login time, and the receiver at awards/models.py:28-30 writes that cached copy over the flag set at lines 199-201 (Awards.RedeemAsWrittenLosesJury) | any valid token with no bound user whose "jury_" name is free | the redeeming user ends with a jury profile | medium, not executed; it rests on Django caching the reverse one-to-one profile on creation and on its last-login receiver, neither of which is in the repository | Awards.UnboundRedeemProfilesAsWritten | Awards.RedeemOutcome |
