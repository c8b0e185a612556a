/** Single-use jury tokens: the row, its validity, its default expiry, the
    textual forms of its identifier, and the user name a redemption creates. */
module Tokens {
  import opened Common

  /** One day in the model's unit of time, the microsecond (the resolution
      of a stored date-time). */
  const OneDay: nat := 86_400_000_000

  /** A JuryToken row without its identifier, which is the key of the table
      that holds it. */
  datatype JuryToken = JuryToken(created: nat, used: bool, user: Option<UserId>, expiresAt: nat)

  /** `default_expire`: one day after the moment the row is made. */
  function DefaultExpire(now: nat): nat {
    now + OneDay
  }

  /** A row as `JuryToken.objects.create()` stores it at time `now`: every
      field at its default. */
  function NewToken(now: nat): JuryToken {
    JuryToken(now, false, None, DefaultExpire(now))
  }

  /** `JuryToken.is_valid`: not used, and the expiry strictly after `now`. */
  predicate IsValid(t: JuryToken, now: nat) {
    !t.used && t.expiresAt > now
  }

  /** A new token is unused and unbound, and is valid from its creation up to,
      but not including, one day later. */
  lemma NewTokenValidity(now: nat, t: nat)
    requires now <= t
    ensures !NewToken(now).used && NewToken(now).user.None?
    ensures IsValid(NewToken(now), t) <==> t < now + OneDay
  {
  }

  /** The comparison is strict: at the expiry instant the token is expired. */
  lemma ExpiredAtDeadline(t: JuryToken)
    ensures !IsValid(t, t.expiresAt)
  {
  }

  /** Validity never comes back as time advances while `used` is unchanged. */
  lemma InvalidStaysInvalid(t: JuryToken, now: nat, later: nat)
    requires !IsValid(t, now) && now <= later
    ensures !IsValid(t, later)
  {
  }

  /** A used token is invalid at every instant. */
  lemma UsedNeverValid(t: JuryToken, now: nat)
    requires t.used
    ensures !IsValid(t, now)
  {
  }

  predicate IsHexDigit(c: char) {
    '0' <= c <= '9' || 'a' <= c <= 'f'
  }

  /** `uuid.hex`: thirty-two lowercase hexadecimal digits. This is the key of
      the token table. */
  predicate IsUuidHex(h: string) {
    |h| == 32 && forall i :: 0 <= i < |h| ==> IsHexDigit(h[i])
  }

  /** Positions of the hyphens in the canonical text of a UUID. */
  predicate IsHyphenPos(i: int) {
    i == 8 || i == 13 || i == 18 || i == 23
  }

  /** `str(uuid)`: the digits grouped 8-4-4-4-12 and joined by hyphens. */
  function UuidString(h: string): string
    requires |h| == 32
  {
    h[..8] + "-" + h[8..12] + "-" + h[12..16] + "-" + h[16..20] + "-" + h[20..]
  }

  /** The `uuid` path converter of the jury login route: it accepts exactly
      the canonical lowercase text of a UUID and yields its digits. */
  function ParseUuid(s: string): (r: Option<string>)
    ensures r.Some? ==> IsUuidHex(r.value)
  {
    if |s| == 36 && (forall i :: 0 <= i < 36 ==> if IsHyphenPos(i) then s[i] == '-' else IsHexDigit(s[i]))
    then Some(s[..8] + s[9..13] + s[14..18] + s[19..23] + s[24..])
    else None
  }

  /** The link handed out for a token leads back to that token, and every
      text the route accepts is the link text of the token it names. */
  lemma UuidRoundTrip(h: string, s: string)
    ensures IsUuidHex(h) ==> ParseUuid(UuidString(h)) == Some(h)
    ensures ParseUuid(s).Some? ==> UuidString(ParseUuid(s).value) == s
  {
    if IsUuidHex(h) {
      var u := UuidString(h);
      assert |u| == 36;
      forall i | 0 <= i < 36
        ensures if IsHyphenPos(i) then u[i] == '-' else IsHexDigit(u[i])
      {
        if i < 8 { assert u[i] == h[i]; }
        else if 8 < i < 13 { assert u[i] == h[i - 1]; }
        else if 13 < i < 18 { assert u[i] == h[i - 2]; }
        else if 18 < i < 23 { assert u[i] == h[i - 3]; }
        else if 23 < i { assert u[i] == h[i - 4]; }
      }
      assert u[..8] == h[..8] && u[9..13] == h[8..12] && u[14..18] == h[12..16];
      assert u[19..23] == h[16..20] && u[24..] == h[20..];
      assert h == h[..8] + h[8..12] + h[12..16] + h[16..20] + h[20..];
    }
    if ParseUuid(s).Some? {
      var h' := ParseUuid(s).value;
      assert |h'| == 32;
      assert h'[..8] == s[..8] && h'[8..12] == s[9..13] && h'[12..16] == s[14..18];
      assert h'[16..20] == s[19..23] && h'[20..] == s[24..];
      assert s == s[..8] + "-" + s[9..13] + "-" + s[14..18] + "-" + s[19..23] + "-" + s[24..];
    }
  }

  /** The user name a redemption gives the user it creates: "jury_" and the
      first eight hex digits of the token. */
  function JuryUsername(h: string): string
    requires |h| >= 8
  {
    "jury_" + h[..8]
  }

  /** Two tokens yield the same jury user name exactly when their first eight
      digits agree, so distinct tokens can collide on the name. */
  lemma JuryUsernameCollision(a: string, b: string)
    requires |a| >= 8 && |b| >= 8
    ensures JuryUsername(a) == JuryUsername(b) <==> a[..8] == b[..8]
  {
    if JuryUsername(a) == JuryUsername(b) {
      assert JuryUsername(a)[5..] == a[..8];
      assert JuryUsername(b)[5..] == b[..8];
    }
  }
}
