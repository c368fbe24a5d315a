/** Google sign-in: the Firebase token's outcome, the admission rule (the
    school's email domain or the admin list), find-or-create of the user and
    the promotion of admin addresses. */
module AuthController {
  import opened Common
  import opened Text
  import opened Collections
  import opened UserModel
  import opened Store

  const DefaultDomain: string := "bu.ac.kr"
  const ExpiredCode: string := "auth/id-token-expired"
  const AuthCodePrefix: string := "auth/"

  /** The two environment variables the handler reads,
      ALLOWED_EMAIL_DOMAIN and ADMIN_EMAILS. */
  datatype LoginConfig = LoginConfig(allowedDomain: Option<string>, adminEmails: Option<string>)

  /** The fields of a verified Firebase ID token the handler uses. */
  datatype DecodedToken = DecodedToken(email: Option<string>, name: Option<string>,
                                       picture: Option<string>, uid: Option<string>)

  /** What Firebase verification of an ID token gives: the decoded token, or
      an error carrying an optional code. */
  datatype FirebaseResult = Decoded(token: DecodedToken) | Rejected(code: Option<string>)

  /** The user fields the login response carries beside the token. */
  datatype LoginView = LoginView(id: Id, email: string, name: string, department: string,
                                 profileImage: string, role: Role, profileComplete: bool)

  function ViewOf(u: User): LoginView
  {
    LoginView(u.id, u.email, u.name, u.department, u.profileImage, u.role, u.profileComplete)
  }

  /** The allowed domain; an unset or empty variable means the default. */
  function AllowedDomain(cfg: LoginConfig): string
  {
    if Present(cfg.allowedDomain) then cfg.allowedDomain.value else DefaultDomain
  }

  /** Each part trimmed, the empty ones dropped: `map(e => e.trim())`
      followed by `filter(Boolean)`. */
  function CleanEntries(parts: seq<string>): (r: seq<string>)
    ensures |r| <= |parts|
    ensures forall k :: 0 <= k < |r| ==> r[k] != "" && Trimmed(r[k])
  {
    if parts == [] then []
    else
      var t := Trim(parts[0]);
      var rest := CleanEntries(parts[1..]);
      if t == "" then rest else [t] + rest
  }

  /** Every entry is some part, trimmed, and not empty. */
  lemma {:induction false} MemberSound(parts: seq<string>, x: string) returns (k: nat)
    requires x in CleanEntries(parts)
    ensures x != "" && k < |parts| && Trim(parts[k]) == x
  {
    if x == Trim(parts[0]) {
      k := 0;
    } else {
      var j := MemberSound(parts[1..], x);
      assert parts[j + 1] == parts[1..][j];
      k := j + 1;
    }
  }

  /** Every part that is not blank after trimming is an entry. */
  lemma {:induction false} MemberComplete(parts: seq<string>, k: nat)
    requires k < |parts| && Trim(parts[k]) != ""
    ensures Trim(parts[k]) in CleanEntries(parts)
  {
    if k > 0 {
      MemberComplete(parts[1..], k - 1);
      assert parts[1..][k - 1] == parts[k];
    }
  }

  /** Trimming adds no character. */
  lemma TrimWithout(s: string, c: char)
    requires c !in s
    ensures c !in Trim(s)
  {
    var i := TrimIsInfix(s);
    assert Trim(s) == s[i..i + |Trim(s)|];
  }

  /** A character no part has is in no entry. */
  lemma {:induction false} CleanEntriesWithout(parts: seq<string>, c: char)
    requires forall k :: 0 <= k < |parts| ==> c !in parts[k]
    ensures forall k :: 0 <= k < |CleanEntries(parts)| ==> c !in CleanEntries(parts)[k]
  {
    if parts != [] {
      CleanEntriesWithout(parts[1..], c);
      TrimWithout(parts[0], c);
      var t := Trim(parts[0]);
      var rest := CleanEntries(parts[1..]);
      if t != "" {
        forall k | 0 <= k < |[t] + rest| ensures c !in ([t] + rest)[k] {
          if k > 0 { assert ([t] + rest)[k] == rest[k - 1]; }
        }
      }
    }
  }

  /** The admin list: ADMIN_EMAILS (or '') split on ',', each entry
      trimmed, empty entries dropped. */
  function AdminList(cfg: LoginConfig): (r: seq<string>)
    ensures forall k :: 0 <= k < |r| ==> r[k] != "" && Trimmed(r[k]) && ',' !in r[k]
  {
    var raw := if cfg.adminEmails.Some? then cfg.adminEmails.value else "";
    CleanEntriesWithout(Split(raw, ','), ',');
    CleanEntries(Split(raw, ','))
  }

  /** Entries that are already trimmed and non-empty come through the
      cleaning unchanged. */
  lemma {:induction false} CleanEntriesOfClean(parts: seq<string>)
    requires forall k :: 0 <= k < |parts| ==> parts[k] != "" && Trim(parts[k]) == parts[k]
    ensures CleanEntries(parts) == parts
  {
    if parts != [] {
      CleanEntriesOfClean(parts[1..]);
      assert [parts[0]] + parts[1..] == parts;
    }
  }

  /** Writing a list of clean addresses as ADMIN_EMAILS, comma separated,
      yields exactly that list. */
  lemma AdminListRoundTrip(entries: seq<string>, domain: Option<string>)
    requires |entries| >= 1
    requires forall k :: 0 <= k < |entries| ==> entries[k] != "" && Trim(entries[k]) == entries[k] && ',' !in entries[k]
    ensures AdminList(LoginConfig(domain, Some(Join(entries, ',')))) == entries
  {
    SplitJoin(entries, ',');
    CleanEntriesOfClean(entries);
  }

  /** Without ADMIN_EMAILS there are no admin addresses. */
  lemma NoAdminsByDefault(domain: Option<string>)
    ensures AdminList(LoginConfig(domain, None)) == []
    ensures AdminList(LoginConfig(domain, Some(""))) == []
  {
    assert Split("", ',') == [""];
  }

  /** `email.split('@')[1]`: the text between the first '@' and the next
      one, undefined when there is no '@'. */
  function EmailDomain(email: string): Option<string>
  {
    Field(email, '@', 1)
  }

  /** The admission rule: the domain part equals the allowed domain, or the
      address, exactly as the token gives it, is in the admin list. */
  predicate Admitted(email: string, cfg: LoginConfig)
  {
    EmailDomain(email) == Some(AllowedDomain(cfg)) || email in AdminList(cfg)
  }

  /** The domain an address is checked against is its second '@'-separated
      part, whatever follows it. */
  lemma DomainIsSecondPart(parts: seq<string>)
    requires |parts| >= 2
    requires forall k :: 0 <= k < |parts| ==> '@' !in parts[k]
    ensures EmailDomain(Join(parts, '@')) == Some(parts[1])
  {
    SplitJoin(parts, '@');
  }

  /** For an address `local@domain` with a single '@', admission holds
      exactly when the domain is the allowed one or the address is an admin
      address. */
  lemma AdmittedAddress(local: string, domain: string, cfg: LoginConfig)
    requires '@' !in local && '@' !in domain
    ensures Admitted(local + "@" + domain, cfg) <==>
              domain == AllowedDomain(cfg) || local + "@" + domain in AdminList(cfg)
  {
    assert Join([local, domain], '@') == local + "@" + domain;
    DomainIsSecondPart([local, domain]);
  }

  /** An address without '@' has no domain and gets in only through the
      admin list. */
  lemma AddressWithoutAt(email: string, cfg: LoginConfig)
    requires '@' !in email
    ensures Admitted(email, cfg) <==> email in AdminList(cfg)
  {
    NoDomainWithoutAt(email);
  }

  lemma NoDomainWithoutAt(email: string)
    requires '@' !in email
    ensures EmailDomain(email).None?
  {
    SplitJoin([email], '@');
    assert Join([email], '@') == email;
  }

  /** The status and reason for a Firebase error: the expiry code gives the
      "expired" 401, any other 'auth/' code the "invalid" 401, anything else
      500. */
  function LoginFailure(code: Option<string>): (r: Response<LoginView>)
    ensures r.Err?
    ensures r.status == 401 <==> code.Some? && StartsWith(code.value, AuthCodePrefix)
    ensures r.status != 401 ==> r == Err(500, ServerError)
    ensures r.reason == TokenExpired <==> code == Some(ExpiredCode)
    ensures r.status == 401 && code != Some(ExpiredCode) ==> r.reason == TokenInvalid
  {
    assert StartsWith(ExpiredCode, AuthCodePrefix) by {
      assert ExpiredCode[..|AuthCodePrefix|] == AuthCodePrefix;
    }
    if code == Some(ExpiredCode) then Err(401, TokenExpired)
    else if code.Some? && StartsWith(code.value, AuthCodePrefix) then Err(401, TokenInvalid)
    else Err(500, ServerError)
  }

  /** A returning user after login: an admin address forces the admin role
      (an admin is never demoted), and the token's picture fills an empty
      profile image; nothing else changes. */
  function LoginUpdate(u: User, isAdminEmail: bool, picture: Option<string>): (v: User)
    ensures v.role == (if isAdminEmail then Admin else u.role)
    ensures v.profileImage == (if u.profileImage == "" && Present(picture) then picture.value else u.profileImage)
    ensures v.(role := u.role, profileImage := u.profileImage) == u
  {
    var promoted := if isAdminEmail && u.role != Admin then u.(role := Admin) else u;
    if Present(picture) && promoted.profileImage == "" then promoted.(profileImage := picture.value)
    else promoted
  }

  /** The name a new account gets: the token's name, or else the part of
      the address before the first '@'. */
  function AccountName(email: string, tok: DecodedToken): string
  {
    if Present(tok.name) then tok.name.value else Split(email, '@')[0]
  }

  /** The document `User.create` is asked for on a first login. */
  function NewAccount(id: Id, email: string, tok: DecodedToken, isAdminEmail: bool): User
  {
    NewUser(id, email, AccountName(email, tok),
            if Present(tok.picture) then tok.picture.value else "", tok.uid,
            if isAdminEmail then Admin else Member)
  }

  /** A new account holds the normalised address, the trimmed name, the
      token's picture or '', the token's uid, the admin role exactly for an
      admin address, and an incomplete, unsuspended profile. */
  lemma NewAccountShape(id: Id, email: string, tok: DecodedToken, isAdminEmail: bool)
    ensures var u := NewAccount(id, email, tok, isAdminEmail);
            && u.id == id && u.email == NormalizeEmail(email)
            && u.name == Trim(AccountName(email, tok))
            && u.profileImage == (if Present(tok.picture) then tok.picture.value else "")
            && u.googleId == tok.uid
            && (u.role == Admin <==> isAdminEmail)
            && !u.profileComplete && !u.isSuspended
            && (ValidUser(u) <==> NormalizeEmail(email) != "" && Trim(AccountName(email, tok)) != "")
  {
  }

  /** Sign-in once the address is admitted: the stored user with the new
      account's (normalised) address is updated by `LoginUpdate`, or else
      the new account is created when it passes validation. */
  function SignIn(users: seq<User>, account: User, isAdminEmail: bool, picture: Option<string>): (res: (Response<LoginView>, seq<User>))
    ensures res.0.Err? ==> res == (Err(500, ServerError), users)
    ensures res.0.Ok? ==> res.0.status == 200 && |res.1| >= |users|
  {
    match EmailIndex(users, account.email)
    case Some(i) =>
      var v := LoginUpdate(users[i], isAdminEmail, picture);
      (Ok(200, ViewOf(v)), users[i := v])
    case None =>
      if ValidUser(account) then (Ok(200, ViewOf(account)), users + [account])
      else (Err(500, ServerError), users)
  }

  /** A decoded token: 400 without an email, 403 for an address that is
      not admitted, otherwise sign-in. */
  function Admit(users: seq<User>, cfg: LoginConfig, tok: DecodedToken, newId: Id): (res: (Response<LoginView>, seq<User>))
    ensures res.0.Err? ==> res.1 == users
    ensures res.0.Ok? ==> res.0.status == 200 && |res.1| >= |users|
  {
    if !Present(tok.email) then (Err(400, MissingEmail), users)
    else
      var email := tok.email.value;
      var isAdminEmail := email in AdminList(cfg);
      if !Admitted(email, cfg) then (Err(403, InvalidDomain), users)
      else SignIn(users, NewAccount(newId, email, tok, isAdminEmail), isAdminEmail, tok.picture)
  }

  /** `googleLogin` as a function of the user collection and the
      verification oracle: the response and the users afterwards. */
  function Login(users: seq<User>, cfg: LoginConfig, idToken: Option<string>,
                 verify: string -> FirebaseResult, newId: Id): (res: (Response<LoginView>, seq<User>))
    ensures !Present(idToken) ==> res == (Err(400, MissingIdToken), users)
    ensures res.0.Err? ==> res.1 == users
    ensures res.0.Ok? ==> res.0.status == 200 && |res.1| >= |users|
  {
    if !Present(idToken) then (Err(400, MissingIdToken), users)
    else match verify(idToken.value)
      case Rejected(code) => (LoginFailure(code), users)
      case Decoded(tok) => Admit(users, cfg, tok, newId)
  }

  /** Which requests get in: a present token that Firebase accepts, whose
      email is present and admitted, and which either names a stored user or
      yields a valid new account. Each refusal has its own status. */
  lemma LoginOutcomes(users: seq<User>, cfg: LoginConfig, idToken: Option<string>,
                      verify: string -> FirebaseResult, newId: Id)
    requires Present(idToken)
    ensures var res := Login(users, cfg, idToken, verify, newId);
            var out := verify(idToken.value);
            && (out.Rejected? ==> res.0 == LoginFailure(out.code))
            && (out.Decoded? && !Present(out.token.email) ==> res.0 == Err(400, MissingEmail))
            && (out.Decoded? && Present(out.token.email) && !Admitted(out.token.email.value, cfg) ==>
                  res.0 == Err(403, InvalidDomain))
            && (res.0.Ok? <==>
                  && out.Decoded? && Present(out.token.email) && Admitted(out.token.email.value, cfg)
                  && (|| EmailIndex(users, NormalizeEmail(out.token.email.value)).Some?
                      || ValidUser(NewAccount(newId, out.token.email.value, out.token,
                                              out.token.email.value in AdminList(cfg)))))
  {
  }

  /** A returning user's record changes only by `LoginUpdate`, and the
      response shows the updated record. */
  lemma ReturningUser(users: seq<User>, cfg: LoginConfig, idToken: Option<string>,
                      verify: string -> FirebaseResult, newId: Id)
    requires Present(idToken) && verify(idToken.value).Decoded?
    requires var tok := verify(idToken.value).token;
             Present(tok.email) && Admitted(tok.email.value, cfg)
             && EmailIndex(users, NormalizeEmail(tok.email.value)).Some?
    ensures var tok := verify(idToken.value).token;
            var i := EmailIndex(users, NormalizeEmail(tok.email.value)).value;
            var v := LoginUpdate(users[i], tok.email.value in AdminList(cfg), tok.picture);
            && Login(users, cfg, idToken, verify, newId) == (Ok(200, ViewOf(v)), users[i := v])
            && (users[i].role == Admin ==> v.role == Admin)
  {
  }

  /** A first login creates the account: the new record, with the admin
      role exactly for an admin address, is appended to the users and the
      response shows it. */
  lemma FirstLogin(users: seq<User>, cfg: LoginConfig, idToken: Option<string>,
                   verify: string -> FirebaseResult, newId: Id)
    requires Present(idToken) && verify(idToken.value).Decoded?
    requires var tok := verify(idToken.value).token;
             && Present(tok.email) && Admitted(tok.email.value, cfg)
             && EmailIndex(users, NormalizeEmail(tok.email.value)).None?
             && ValidUser(NewAccount(newId, tok.email.value, tok, tok.email.value in AdminList(cfg)))
    ensures var tok := verify(idToken.value).token;
            var u := NewAccount(newId, tok.email.value, tok, tok.email.value in AdminList(cfg));
            Login(users, cfg, idToken, verify, newId) == (Ok(200, ViewOf(u)), users + [u])
  {
  }

  /** Sign-in keeps the collection valid: a new account has a fresh id and
      an address no one else has; an update keeps id, address and every
      validated field. */
  lemma SignInKeepsValid(users: seq<User>, account: User, isAdminEmail: bool, picture: Option<string>)
    requires UsersValid(users) && UserIndex(users, account.id).None?
    ensures UsersValid(SignIn(users, account, isAdminEmail, picture).1)
  {
    match EmailIndex(users, account.email)
    case Some(i) =>
      var v := LoginUpdate(users[i], isAdminEmail, picture);
      assert ValidUser(users[i]);
      UpdateUserValid(users, i, v);
    case None =>
      if ValidUser(account) {
        AppendUserValid(users, account);
      }
  }

  lemma LoginKeepsValid(users: seq<User>, cfg: LoginConfig, idToken: Option<string>,
                        verify: string -> FirebaseResult, newId: Id)
    requires UsersValid(users) && UserIndex(users, newId).None?
    ensures UsersValid(Login(users, cfg, idToken, verify, newId).1)
  {
    if Present(idToken) && verify(idToken.value).Decoded? {
      var tok := verify(idToken.value).token;
      if Present(tok.email) && Admitted(tok.email.value, cfg) {
        var isAdminEmail := tok.email.value in AdminList(cfg);
        SignInKeepsValid(users, NewAccount(newId, tok.email.value, tok, isAdminEmail), isAdminEmail, tok.picture);
      }
    }
  }

  /** The login update applied twice is the update applied once. */
  lemma LoginUpdateIdempotent(u: User, isAdminEmail: bool, picture: Option<string>)
    ensures var v := LoginUpdate(u, isAdminEmail, picture);
            LoginUpdate(v, isAdminEmail, picture) == v
  {
  }

  /** Logging in again with the same token changes nothing and shows the
      same user: the first login already created or updated the record. */
  lemma LoginAgainChangesNothing(users: seq<User>, cfg: LoginConfig, idToken: Option<string>,
                                 verify: string -> FirebaseResult, newId: Id, newId2: Id)
    requires Login(users, cfg, idToken, verify, newId).0.Ok?
    ensures var first := Login(users, cfg, idToken, verify, newId);
            Login(first.1, cfg, idToken, verify, newId2) == first
  {
    var tok := verify(idToken.value).token;
    var email := tok.email.value;
    var isAdminEmail := email in AdminList(cfg);
    var u := NewAccount(newId, email, tok, isAdminEmail);
    var u2 := NewAccount(newId2, email, tok, isAdminEmail);
    assert u.role == (if isAdminEmail then Admin else Member);
    assert u.profileImage == (if Present(tok.picture) then tok.picture.value else "");
    assert u2.email == u.email;
    SignInAgain(users, u, u2, isAdminEmail, tok.picture);
  }

  /** Signing in a second time, with an account for the same address,
      finds the record the first sign-in left and leaves it as it is. */
  lemma SignInAgain(users: seq<User>, account: User, account2: User, isAdminEmail: bool, picture: Option<string>)
    requires SignIn(users, account, isAdminEmail, picture).0.Ok?
    requires account2.email == account.email && LoginUpdate(account, isAdminEmail, picture) == account
    ensures var first := SignIn(users, account, isAdminEmail, picture);
            SignIn(first.1, account2, isAdminEmail, picture) == first
  {
    var key := account.email;
    match EmailIndex(users, key)
    case Some(i) =>
      var v := LoginUpdate(users[i], isAdminEmail, picture);
      var after := users[i := v];
      FirstIndexUpdate(users, i, v, UserWithEmail(key));
      LoginUpdateIdempotent(users[i], isAdminEmail, picture);
      assert after[i := v] == after;
    case None =>
      var after := users + [account];
      FirstIndexAppend(users, account, UserWithEmail(key));
      assert after[|users|] == account;
      assert after[|users| := account] == after;
  }

  /** `googleLogin` on the store. The session token signed for the user is
      left to the caller; the response carries the user it is for. */
  method GoogleLogin(db: Db, cfg: LoginConfig, idToken: Option<string>,
                     verify: string -> FirebaseResult, newId: Id) returns (r: Response<LoginView>)
    requires db.Valid() && UserIndex(db.users, newId).None?
    modifies db`users
    ensures db.Valid()
    ensures (r, db.users) == Login(old(db.users), cfg, idToken, verify, newId)
  {
    var res := Login(db.users, cfg, idToken, verify, newId);
    LoginKeepsValid(db.users, cfg, idToken, verify, newId);
    db.users := res.1;
    r := res.0;
  }
}
