/** The UserProfile table and the two ways rows get into it: the receivers
    that run after a user is saved, and `get_or_create`. */
module Profiles {
  import opened Common

  /** Each user's `is_jury` flag. The profile's one-to-one link to its user
      makes the user the key, so no user has two profiles. */
  type ProfileTable = map<UserId, bool>

  /** `UserProfile.objects.get_or_create(user=u)`: an existing profile is
      kept as it is; a missing one is created with `is_jury` False. */
  function GetOrCreate(p: ProfileTable, u: UserId): (r: ProfileTable)
    ensures u in r && r.Keys == p.Keys + {u}
    ensures forall v :: v in p ==> r[v] == p[v]
    ensures u !in p ==> !r[u]
  {
    if u in p then p else p[u := false]
  }

  /** The post-save receivers on a user, in registration order:
      `create_user_profile` inserts a profile when the user row was just
      created (a second profile for the user violates the one-to-one link),
      then `save_user_profile` saves the user's profile, which fails when
      there is none. `None` is the exception either step raises. */
  function OnUserSaved(p: ProfileTable, u: UserId, created: bool): Option<ProfileTable> {
    var afterCreate := if !created then Some(p) else if u in p then None else Some(p[u := false]);
    if afterCreate.Some? && u in afterCreate.value then afterCreate else None
  }

  /** Saving a newly created user gives it exactly one profile, not jury, and
      touches no other profile. */
  lemma NewUserGetsProfile(p: ProfileTable, u: UserId)
    requires u !in p
    ensures OnUserSaved(p, u, true) == Some(p[u := false])
  {
  }

  /** Saving an existing user adds no profile: the table is unchanged, or the
      save fails when the user has none. */
  lemma ResaveAddsNoProfile(p: ProfileTable, u: UserId)
    ensures OnUserSaved(p, u, false) == if u in p then Some(p) else None
  {
  }

  /** Making sure twice is the same as making sure once. */
  lemma GetOrCreateIdempotent(p: ProfileTable, u: UserId)
    ensures GetOrCreate(GetOrCreate(p, u), u) == GetOrCreate(p, u)
  {
  }

  /** The jury flag after `get_or_create` is the old one, or False for a
      new profile: a jury member stays jury and nobody becomes jury. */
  lemma GetOrCreateKeepsJuryFlag(p: ProfileTable, u: UserId)
    ensures GetOrCreate(p, u)[u] <==> u in p && p[u]
  {
  }
}
