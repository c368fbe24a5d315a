/** The request guards: bearer-token authentication with automatic release
    of expired suspensions, the admin guard and the complete-profile guard. */
module AuthMiddleware {
  import opened Common
  import opened Text
  import opened UserModel
  import opened Store

  /** What `jwt.verify` makes of a token: the `id` claim it carries, or the
      error it throws. Signature and expiry checking are not modelled. */
  datatype Verdict = Verified(userId: Id) | Expired | Invalid

  const BearerPrefix: string := "Bearer "

  /** The first part of `s.split(' ')` is the text before the first space. */
  lemma SplitHead(s: string)
    ensures Split(s, ' ')[0] == BeforeFirst(s, " ")
  {
  }

  /** The token an `Authorization` header carries: absent when the header is
      missing, empty or does not start with "Bearer "; otherwise
      `header.split(' ')[1]`, the text after "Bearer " up to the next space.
      A header of just "Bearer " yields the empty token, which `jwt.verify`
      always rejects; the verification parameter is not constrained on it. */
  function BearerToken(header: Option<string>): (r: Option<string>)
    ensures r.None? <==> !Present(header) || !StartsWith(header.value, BearerPrefix)
    ensures r.Some? ==> Field(header.value, ' ', 1) == r
    ensures r.Some? ==> r.value == BeforeFirst(header.value[|BearerPrefix|..], " ")
  {
    if !Present(header) || !StartsWith(header.value, BearerPrefix) then None
    else
      var h := header.value;
      assert OccursAt(h, " ", 6) by { assert h[6..7] == h[..7][6..7]; }
      forall j | 0 <= j < 6 ensures !OccursAt(h, " ", j) {
        assert h[j..j + 1] == [h[..7][j]];
      }
      assert IndexOf(h, [' ']) == Some(6);
      SplitHead(h[7..]);
      Some(Split(h, ' ')[1])
  }

  /** The suspension check applied to a found user. */
  datatype SuspensionCheck = NotSuspended | StillSuspended | SuspensionOver

  /** A suspended user stays blocked when no end date is set or the end date
      is still in the future; once it has passed the suspension is lifted. */
  function CheckSuspension(u: User, now: Time): (r: SuspensionCheck)
    ensures r == NotSuspended <==> !u.isSuspended
    ensures r == StillSuspended <==>
              u.isSuspended && (u.suspendedUntil.None? || u.suspendedUntil.value > now)
    ensures r == SuspensionOver <==>
              u.isSuspended && u.suspendedUntil.Some? && u.suspendedUntil.value <= now
  {
    if !u.isSuspended then NotSuspended
    else if u.suspendedUntil.None? || u.suspendedUntil.value > now then StillSuspended
    else SuspensionOver
  }

  /** `authenticate`: parse the header, verify the token, load the user and
      apply the suspension rule. The only state it changes is the release of
      an expired suspension, saved back to the user's record. */
  method Authenticate(db: Db, header: Option<string>, verify: string -> Verdict)
    returns (r: Response<User>)
    requires db.Valid()
    modifies db`users
    ensures db.Valid()
    ensures BearerToken(header).None? ==>
              r == Err(401, TokenRequired) && db.users == old(db.users)
    ensures BearerToken(header).Some? && verify(BearerToken(header).value).Expired? ==>
              r == Err(401, TokenExpired) && db.users == old(db.users)
    ensures BearerToken(header).Some? && verify(BearerToken(header).value).Invalid? ==>
              r == Err(401, TokenInvalid) && db.users == old(db.users)
    ensures BearerToken(header).Some? && verify(BearerToken(header).value).Verified? ==>
              var id := verify(BearerToken(header).value).userId;
              match UserIndex(old(db.users), id)
              case None => r == Err(401, UserInvalid) && db.users == old(db.users)
              case Some(i) =>
                var u := old(db.users)[i];
                match CheckSuspension(u, db.now)
                case NotSuspended => r == Ok(200, u) && db.users == old(db.users)
                case StillSuspended => r == Err(403, Suspended) && db.users == old(db.users)
                case SuspensionOver =>
                  r == Ok(200, Unsuspended(u)) && db.users == old(db.users)[i := Unsuspended(u)]
  {
    var token := BearerToken(header);
    if token.None? {
      return Err(401, TokenRequired);
    }
    var verdict := verify(token.value);
    match verdict
    case Expired => return Err(401, TokenExpired);
    case Invalid => return Err(401, TokenInvalid);
    case Verified(id) =>
      var found := UserIndex(db.users, id);
      if found.None? {
        return Err(401, UserInvalid);
      }
      var u := db.users[found.value];
      var check := CheckSuspension(u, db.now);
      if check == StillSuspended {
        return Err(403, Suspended);
      }
      if check == SuspensionOver {
        u := Unsuspended(u);
        UpdateUserValid(db.users, found.value, u);
        db.users := db.users[found.value := u];
      }
      return Ok(200, u);
  }

  /** `requireAdmin`: only an authenticated admin passes, anyone else gets 403. */
  function RequireAdmin(user: Option<User>): (r: Response<User>)
    ensures r.Ok? <==> user.Some? && user.value.role == Admin
    ensures r.Ok? ==> r == Ok(200, user.value)
    ensures r.Err? ==> r == Err(403, AdminRequired)
  {
    if user.None? || user.value.role != Admin then Err(403, AdminRequired) else Ok(200, user.value)
  }

  /** `requireCompleteProfile`: only a user whose profile is complete passes;
      the refusal carries the code PROFILE_INCOMPLETE. */
  function RequireCompleteProfile(user: User): (r: Response<User>)
    ensures r.Ok? <==> user.profileComplete
    ensures r.Ok? ==> r == Ok(200, user)
    ensures r.Err? ==> r == Err(403, ProfileIncomplete)
  {
    if !user.profileComplete then Err(403, ProfileIncomplete) else Ok(200, user)
  }
}
