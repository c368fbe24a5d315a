/** The post ("date request" listing) record and what its schema admits. */
module PostModel {
  import opened Common
  import opened Text

  datatype Post = Post(
    id: Id,
    author: Id,
    kind: string,              // the schema's `type` field
    title: string,
    description: string,
    participantsCount: int,
    genderPreference: string,
    images: seq<string>,
    isAnonymous: bool,
    isDeleted: bool,
    likes: seq<Id>,
    createdAt: Time)

  const PostKinds: set<string> := {"one", "group"}
  const ParticipantCounts: set<int> := {2, 3, 4}
  const GenderPreferences: set<string> := {"male", "female", "mixed", "any"}
  const MaxTitle: nat := 100
  const MaxDescription: nat := 1000

  predicate ValidPost(p: Post)
  {
    && p.kind in PostKinds
    && p.title != "" && Trimmed(p.title) && Utf16Length(p.title) <= MaxTitle
    && Utf16Length(p.description) <= MaxDescription
    && p.participantsCount in ParticipantCounts
    && p.genderPreference in GenderPreferences
  }

  /** The document `Post.create` builds: the title's `trim` setter applied,
      no likes, not deleted. It passes validation exactly when every
      enumerated field holds an admitted value and the trimmed title is
      non-empty and at most 100 UTF-16 code units long, and the description
      at most 1000. */
  function NewPost(id: Id, author: Id, kind: string, title: string, description: string,
                   participantsCount: int, genderPreference: string, images: seq<string>,
                   isAnonymous: bool, createdAt: Time): (p: Post)
    ensures p.title == Trim(title) && p.author == author && p.createdAt == createdAt
    ensures !p.isDeleted && p.likes == []
    ensures ValidPost(p) <==>
              && kind in PostKinds
              && p.title != "" && Utf16Length(p.title) <= MaxTitle
              && Utf16Length(description) <= MaxDescription
              && participantsCount in ParticipantCounts
              && genderPreference in GenderPreferences
  {
    var t := Trim(title);
    assert Trimmed(t);
    Post(id, author, kind, t, description, participantsCount, genderPreference,
         images, isAnonymous, false, [], createdAt)
  }
}
