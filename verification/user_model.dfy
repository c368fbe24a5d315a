/** The user record: its fields, the values the schema admits and the
    defaults a new user gets. */
module UserModel {
  import opened Common
  import opened Text

  datatype Role = Member | Admin   // stored as 'user' and 'admin'

  datatype User = User(
    id: Id,
    email: string,
    name: string,
    department: string,
    studentId: string,
    mbti: string,
    height: Option<int>,
    gender: string,
    bio: string,
    interests: seq<string>,
    isAnonymous: bool,
    profileImage: string,
    role: Role,
    isSuspended: bool,
    suspendedUntil: Option<Time>,
    googleId: Option<string>,
    profileComplete: bool)

  const MbtiValues: set<string> :=
    {"INTJ", "INTP", "ENTJ", "ENTP", "INFJ", "INFP", "ENFJ", "ENFP",
     "ISTJ", "ISFJ", "ESTJ", "ESFJ", "ISTP", "ISFP", "ESTP", "ESFP", ""}
  const GenderValues: set<string> := {"male", "female", "other", ""}
  const MinHeight: int := 140
  const MaxHeight: int := 220
  const MaxBio: nat := 300

  /** The `lowercase` and `trim` setters of the email field; Mongoose applies
      them to stored values and to query values alike. */
  function NormalizeEmail(e: string): string
  {
    Trim(ToLower(e))
  }

  /** An email as the setters leave it: no upper-case letter, no white space
      at either end. */
  predicate IsNormalizedEmail(e: string)
  {
    IsLower(e) && Trimmed(e)
  }

  predicate ValidHeight(h: Option<int>)
  {
    h.None? || MinHeight <= h.value <= MaxHeight
  }

  /** What the schema's validators accept (a `required` string must be
      non-empty once its setters have run). */
  predicate ValidUser(u: User)
  {
    && u.email != "" && IsNormalizedEmail(u.email)
    && u.name != "" && Trimmed(u.name)
    && Trimmed(u.department) && Trimmed(u.studentId)
    && u.mbti in MbtiValues
    && ValidHeight(u.height)
    && u.gender in GenderValues
    && Utf16Length(u.bio) <= MaxBio
  }

  /** The document `User.create` builds: setters applied, defaults filled in
      (empty profile, role as given, not suspended, profile incomplete). It
      passes validation exactly when the normalised email and the trimmed
      name are non-empty. */
  function NewUser(id: Id, email: string, name: string, profileImage: string,
                   googleId: Option<string>, role: Role): (u: User)
    ensures u.email == NormalizeEmail(email) && u.name == Trim(name)
    ensures ValidUser(u) <==> NormalizeEmail(email) != "" && Trim(name) != ""
    ensures !u.isSuspended && !u.profileComplete && !u.isAnonymous
  {
    NormalizeEmailIdempotent(email);
    var u := User(id, NormalizeEmail(email), Trim(name), "", "", "", None, "", "", [],
                  false, profileImage, role, false, None, googleId, false);
    EmptyProfileValid(u);
    u
  }

  /** A record with the empty profile `create` gives is valid exactly when
      its normalised email and trimmed name are non-empty. */
  lemma EmptyProfileValid(u: User)
    requires IsNormalizedEmail(u.email) && Trimmed(u.name)
    requires u.department == "" && u.studentId == "" && u.mbti == "" && u.height.None?
    requires u.gender == "" && u.bio == ""
    ensures ValidUser(u) <==> u.email != "" && u.name != ""
  {
    assert Utf16Length(u.bio) == 0;
  }

  /** The record with its suspension lifted, by an admin or because its
      end date has passed: not suspended, no end date, every other field as
      it was. */
  function Unsuspended(u: User): (v: User)
    ensures !v.isSuspended && v.suspendedUntil.None?
    ensures v.(isSuspended := u.isSuspended, suspendedUntil := u.suspendedUntil) == u
  {
    u.(isSuspended := false, suspendedUntil := None)
  }

  /** A normalised email is left alone by the setters, and what they
      produce is normalised: normalising is idempotent, so a stored email is
      found again by the same normalised query. */
  lemma NormalizeEmailIdempotent(e: string)
    ensures IsNormalizedEmail(NormalizeEmail(e))
    ensures NormalizeEmail(NormalizeEmail(e)) == NormalizeEmail(e)
  {
    var x := ToLower(e);
    TrimKeepsLower(x);
    NormalizedFixed(NormalizeEmail(e));
  }

  lemma NormalizedFixed(e: string)
    requires IsNormalizedEmail(e)
    ensures NormalizeEmail(e) == e
  {
    assert ToLower(e) == e;
    TrimOfTrimmed(e);
  }
}
