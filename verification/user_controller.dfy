/** The profile endpoints: field-wise profile update with the
    `profileComplete` rule, the profile image path, and the public profile
    with its anonymous mask. */
module UserController {
  import opened Common
  import opened Text
  import opened UserModel
  import opened Store

  const AnonymousName: string := "익명"
  const DepartmentSuffix: string := "학과"
  const MaxInterests: nat := 10
  const UploadsPrefix: string := "/uploads/"

  /** The `interests` field of a request: absent, an array, or some other
      value. */
  datatype InterestsField = NoInterests | InterestList(items: seq<string>) | NotAList

  /** The fields of a profile update; `None` means the field was not sent.
      `height` arrives already parsed. */
  datatype ProfileUpdate = ProfileUpdate(
    department: Option<string>, studentId: Option<string>, mbti: Option<string>,
    height: Option<int>, gender: Option<string>, bio: Option<string>,
    interests: InterestsField, isAnonymous: Option<Scalar>)

  /** The department the completeness rule looks at: the new one when sent
      (trimmed, even if empty), else the stored one. */
  function FinalDepartment(u: User, req: ProfileUpdate): string
  {
    if req.department.Some? then Trim(req.department.value) else u.department
  }

  /** The user record after an update: exactly the sent fields change,
      department and studentId trimmed, bio cut to 300 UTF-16 code units,
      interests cut to 10 (or emptied when not a list), the anonymity flag
      coerced to a boolean; the profile becomes complete when the final
      department is non-empty and is never made incomplete. */
  function ApplyProfile(u: User, req: ProfileUpdate): (v: User)
    ensures v.profileComplete <==> u.profileComplete || FinalDepartment(u, req) != ""
    ensures v.id == u.id && v.email == u.email && v.name == u.name && v.profileImage == u.profileImage
    ensures v.role == u.role && v.isSuspended == u.isSuspended && v.suspendedUntil == u.suspendedUntil
    ensures v.googleId == u.googleId
  {
    var department := FinalDepartment(u, req);
    User(u.id, u.email, u.name, department, SentStudentId(u, req), SentOr(req.mbti, u.mbti),
         if req.height.Some? then req.height else u.height, SentOr(req.gender, u.gender),
         SentBio(u, req), SentInterests(u, req), SentAnonymous(u, req), u.profileImage, u.role,
         u.isSuspended, u.suspendedUntil, u.googleId, u.profileComplete || department != "")
  }

  /** A field taken as sent, or the stored value when it was not sent. */
  function SentOr<T>(sent: Option<T>, stored: T): T
  {
    if sent.Some? then sent.value else stored
  }

  function SentStudentId(u: User, req: ProfileUpdate): string
  {
    if req.studentId.Some? then Trim(req.studentId.value) else u.studentId
  }

  function SentBio(u: User, req: ProfileUpdate): string
  {
    if req.bio.Some? then Utf16Prefix(req.bio.value, MaxBio) else u.bio
  }

  function SentInterests(u: User, req: ProfileUpdate): seq<string>
  {
    match req.interests
    case NoInterests => u.interests
    case InterestList(items) => Prefix(items, MaxInterests)
    case NotAList => []
  }

  function SentAnonymous(u: User, req: ProfileUpdate): bool
  {
    if req.isAnonymous.Some? then Truthy(req.isAnonymous.value) else u.isAnonymous
  }

  /** Fields that were not sent keep their stored values. */
  lemma UnsentFieldsUnchanged(u: User, req: ProfileUpdate)
    ensures var v := ApplyProfile(u, req);
            && (req.department.None? ==> v.department == u.department)
            && (req.studentId.None? ==> v.studentId == u.studentId)
            && (req.mbti.None? ==> v.mbti == u.mbti)
            && (req.height.None? ==> v.height == u.height)
            && (req.gender.None? ==> v.gender == u.gender)
            && (req.bio.None? ==> v.bio == u.bio)
            && (req.interests.NoInterests? ==> v.interests == u.interests)
            && (req.isAnonymous.None? ==> v.isAnonymous == u.isAnonymous)
  {
  }

  /** Sent fields are stored normalised: department and student id trimmed,
      the bio the longest prefix of whole characters within 300 UTF-16
      code units, the interests a prefix of
      at most 10 items (none when the field is not a list), the anonymity
      flag the value's truthiness, and mbti, height and gender as sent. */
  lemma SentFieldsNormalised(u: User, req: ProfileUpdate)
    ensures var v := ApplyProfile(u, req);
            && (req.department.Some? ==> v.department == Trim(req.department.value))
            && (req.studentId.Some? ==> v.studentId == Trim(req.studentId.value))
            && (req.mbti.Some? ==> v.mbti == req.mbti.value)
            && (req.height.Some? ==> v.height == req.height)
            && (req.gender.Some? ==> v.gender == req.gender.value)
            && (req.bio.Some? ==>
                  && Utf16Length(v.bio) <= MaxBio && v.bio == req.bio.value[..|v.bio|]
                  && (Utf16Length(req.bio.value) <= MaxBio ==> v.bio == req.bio.value)
                  && (|v.bio| < |req.bio.value| ==>
                        MaxBio < Utf16Length(v.bio) + CodeUnits(req.bio.value[|v.bio|])))
            && (req.interests.InterestList? ==>
                  |v.interests| <= MaxInterests && v.interests == req.interests.items[..|v.interests|])
            && (req.interests.NotAList? ==> v.interests == [])
            && (req.isAnonymous.Some? ==> v.isAnonymous == Truthy(req.isAnonymous.value))
  {
  }

  /** Sending the same update twice has the effect of sending it once. */
  lemma ApplyProfileIdempotent(u: User, req: ProfileUpdate)
    ensures ApplyProfile(ApplyProfile(u, req), req) == ApplyProfile(u, req)
  {
    var v := ApplyProfile(u, req);
    assert FinalDepartment(v, req) == v.department;
    assert SentStudentId(v, req) == v.studentId && SentBio(v, req) == v.bio;
    assert SentInterests(v, req) == v.interests && SentAnonymous(v, req) == v.isAnonymous;
    assert SentOr(req.mbti, v.mbti) == v.mbti && SentOr(req.gender, v.gender) == v.gender;
  }

  /** The validators an update with `runValidators` runs: only those of the
      fields it sets, and of those only mbti, height and gender can fail
      (bio is cut to its maximum first). */
  predicate UpdatePassesValidators(req: ProfileUpdate)
  {
    && (req.mbti.Some? ==> req.mbti.value in MbtiValues)
    && (req.height.Some? ==> ValidHeight(req.height))
    && (req.gender.Some? ==> req.gender.value in GenderValues)
  }

  /** A valid user updated by a request that passes the validators is still
      valid. */
  lemma ApplyProfileValid(u: User, req: ProfileUpdate)
    requires ValidUser(u) && UpdatePassesValidators(req)
    ensures ValidUser(ApplyProfile(u, req))
  {
  }

  /** `updateProfile` on the store: when the validators pass, the caller's
      record becomes `ApplyProfile` of it and is returned without its Google
      id; otherwise the store fails and nothing changes. For a caller with
      no record (which `authenticate` lets through only if the record is
      removed in between) the stored department cannot be read, a 500,
      unless a department is sent: then the update finds nothing and the
      answer is 200 with no user. */
  method UpdateProfile(db: Db, me: Id, req: ProfileUpdate) returns (r: Response<Option<User>>)
    requires db.Valid()
    modifies db`users
    ensures db.Valid()
    ensures r.Ok? <==>
              (UserIndex(old(db.users), me).Some? || req.department.Some?) && UpdatePassesValidators(req)
    ensures r.Err? ==> r == Err(500, ServerError) && db.users == old(db.users)
    ensures r.Ok? && UserIndex(old(db.users), me).None? ==>
              r == Ok(200, None) && db.users == old(db.users)
    ensures r.Ok? && UserIndex(old(db.users), me).Some? ==>
              var i := UserIndex(old(db.users), me).value;
              var v := ApplyProfile(old(db.users)[i], req);
              && db.users == old(db.users)[i := v]
              && r == Ok(200, Some(v.(googleId := None)))
  {
    var found := UserIndex(db.users, me);
    if found.None? && req.department.None? {
      return Err(500, ServerError);
    }
    if !UpdatePassesValidators(req) {
      return Err(500, ServerError);
    }
    if found.None? {
      return Ok(200, None);
    }
    var i := found.value;
    var v := ApplyProfile(db.users[i], req);
    ApplyProfileValid(db.users[i], req);
    UpdateUserValid(db.users, i, v);
    db.users := db.users[i := v];
    return Ok(200, Some(v.(googleId := None)));
  }

  /** `uploadProfileImage`: 400 without a file; otherwise the profile image
      becomes the uploaded file's public path, which is returned. */
  method UploadProfileImage(db: Db, me: Id, filename: Option<string>) returns (r: Response<string>)
    requires db.Valid()
    modifies db`users
    ensures db.Valid()
    ensures filename.None? ==> r == Err(400, MissingImage) && db.users == old(db.users)
    ensures filename.Some? && UserIndex(old(db.users), me).None? ==>
              r == Err(500, ServerError) && db.users == old(db.users)
    ensures filename.Some? && UserIndex(old(db.users), me).Some? ==>
              var i := UserIndex(old(db.users), me).value;
              && r == Ok(200, UploadsPrefix + filename.value)
              && db.users == old(db.users)[i := old(db.users)[i].(profileImage := UploadsPrefix + filename.value)]
  {
    if filename.None? {
      return Err(400, MissingImage);
    }
    var url := UploadsPrefix + filename.value;
    var found := UserIndex(db.users, me);
    if found.None? {
      return Err(500, ServerError);
    }
    var i := found.value;
    var v := db.users[i].(profileImage := url);
    UpdateUserValid(db.users, i, v);
    db.users := db.users[i := v];
    return Ok(200, url);
  }

  /** The department an anonymous profile shows:
      `department.split('학과')[0] + '학과'`, or '' for no department. */
  function MaskedDepartment(dep: string): (r: string)
    ensures r == "" <==> dep == ""
    ensures IndexOf(dep, DepartmentSuffix).Some? ==>
              r == dep[..IndexOf(dep, DepartmentSuffix).value + |DepartmentSuffix|]
    ensures dep != "" && IndexOf(dep, DepartmentSuffix).None? ==> r == dep + DepartmentSuffix
  {
    if dep == "" then ""
    else
      var head := BeforeFirst(dep, DepartmentSuffix);
      match IndexOf(dep, DepartmentSuffix)
      case Some(k) =>
        assert |head| == k;
        assert dep[k..k + |DepartmentSuffix|] == DepartmentSuffix;
        assert dep[..k + |DepartmentSuffix|] == dep[..k] + dep[k..k + |DepartmentSuffix|];
        head + DepartmentSuffix
      case None =>
        assert |head| == |dep|;
        assert head == dep;
        head + DepartmentSuffix
  }

  /** The masked department never shows more of the department than its
      text up to the first '학과': when the department has a '학과' the mask
      is a prefix of it. */
  lemma MaskedDepartmentIsPrefix(dep: string)
    requires IndexOf(dep, DepartmentSuffix).Some?
    ensures StartsWith(dep, MaskedDepartment(dep))
  {
  }

  /** The public fields of a profile (`select` keeps these and the id). */
  datatype ProfileView = ProfileView(
    id: Id, name: string, department: string, mbti: string, height: Option<int>,
    gender: string, bio: string, interests: seq<string>, isAnonymous: bool, profileImage: string)

  function PublicView(u: User): ProfileView
  {
    ProfileView(u.id, u.name, u.department, u.mbti, u.height, u.gender, u.bio, u.interests,
                u.isAnonymous, u.profileImage)
  }

  /** `getUserProfile`: 404 for an unknown user. An anonymous user seen by
      someone else shows '익명', no image and the masked department; every
      other field, and every field for anyone else, is shown as stored. */
  function GetUserProfile(users: seq<User>, viewer: Id, id: Id): (r: Response<ProfileView>)
    ensures r.Err? <==> UserIndex(users, id).None?
    ensures r.Err? ==> r == Err(404, UserNotFound)
    ensures r.Ok? ==>
              var u := users[UserIndex(users, id).value];
              && r.status == 200
              && (u.isAnonymous && viewer != id ==>
                    r.value == PublicView(u).(name := AnonymousName, profileImage := "",
                                              department := MaskedDepartment(u.department)))
              && (!(u.isAnonymous && viewer != id) ==> r.value == PublicView(u))
  {
    match UserIndex(users, id)
    case None => Err(404, UserNotFound)
    case Some(i) =>
      var u := users[i];
      if u.isAnonymous && viewer != id then
        Ok(200, PublicView(u).(name := AnonymousName, profileImage := "",
                               department := MaskedDepartment(u.department)))
      else Ok(200, PublicView(u))
  }

  /** A user always sees their own profile unmasked. */
  lemma OwnProfileUnmasked(users: seq<User>, id: Id)
    requires UserIndex(users, id).Some?
    ensures GetUserProfile(users, id, id) == Ok(200, PublicView(users[UserIndex(users, id).value]))
  {
  }
}
