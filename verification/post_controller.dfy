/** The post endpoints: the filtered, paged and anonymised listing, the
    detail view, creation, soft deletion by owner or admin, and the like
    toggle. */
module PostController {
  import opened Common
  import opened Text
  import opened Collections
  import opened UserModel
  import opened PostModel
  import opened Store

  const AnonymousName: string := "익명"
  const UploadsPrefix: string := "/uploads/"

  /** The author as a view shows it. A masked author has no id and no mbti. */
  datatype AuthorView = AuthorView(id: Option<Id>, name: string, department: string,
                                   profileImage: string, mbti: Option<string>)

  /** A post as the listing and the detail view return it: the stored
      fields without the `likes` list, which is replaced by its length and
      whether the viewer is in it. `author` is absent when the author's
      record no longer exists. */
  datatype PostView = PostView(
    id: Id, kind: string, title: string, description: string, participantsCount: int,
    genderPreference: string, images: seq<string>, isAnonymous: bool, createdAt: Time,
    author: Option<AuthorView>, likeCount: nat, isLiked: bool)

  predicate IsMasked(a: AuthorView)
  {
    a.id.None? && a.name == AnonymousName && a.profileImage == "" && a.mbti.None?
  }

  /** The populated author as the listing selects it. */
  function ListedAuthor(users: seq<User>, id: Id): Option<User>
  {
    match UserIndex(users, id)
    case None => None
    case Some(i) => Some(users[i])
  }

  /** A listed post's view: an anonymous post shows a masked author that
      keeps only the department ('' without an author record); the view
      reports the like count and whether the viewer liked it. */
  function ListView(p: Post, users: seq<User>, viewer: Id): (v: PostView)
    ensures v.id == p.id && v.likeCount == |p.likes| && (v.isLiked <==> viewer in p.likes)
    ensures p.isAnonymous ==> v.author.Some? && IsMasked(v.author.value)
    ensures p.isAnonymous ==>
              v.author.value.department ==
                (if UserIndex(users, p.author).Some? then users[UserIndex(users, p.author).value].department else "")
    ensures !p.isAnonymous ==>
              (v.author.Some? <==> UserIndex(users, p.author).Some?)
              && (v.author.Some? ==> v.author.value.id == Some(p.author))
  {
    var author := ListedAuthor(users, p.author);
    var shown :=
      if p.isAnonymous then
        Some(AuthorView(None, AnonymousName, if author.Some? then author.value.department else "", "", None))
      else if author.Some? then
        Some(AuthorView(Some(author.value.id), author.value.name, author.value.department,
                        author.value.profileImage, None))
      else None;
    PostView(p.id, p.kind, p.title, p.description, p.participantsCount, p.genderPreference,
             p.images, p.isAnonymous, p.createdAt, shown, |p.likes|, viewer in p.likes)
  }

  /** The listing filter: never deleted posts; the type only when it is
      'one' or 'group', any other value being ignored. */
  predicate Listed(p: Post, kind: Option<string>)
  {
    !p.isDeleted && (kind == Some("one") || kind == Some("group") ==> p.kind == kind.value)
  }

  /** `Math.ceil(total / limit)` for a positive limit. */
  function CeilDiv(total: nat, limit: nat): (r: nat)
    requires limit > 0
    ensures r * limit >= total && (r == 0 || (r - 1) * limit < total)
    decreases total
  {
    if total == 0 then 0
    else if total <= limit then 1
    else 1 + CeilDiv(total - limit, limit)
  }

  /** The page numbers the listing reports. With a limit of 0 the division
      gives `Infinity` or `NaN`, which the JSON body carries as `null`. */
  datatype Pagination = Pagination(total: nat, page: nat, limit: nat, totalPages: Option<nat>)

  datatype PostList = PostList(posts: seq<PostView>, pagination: Pagination)

  /** The listed posts a page covers, newest first. */
  function ListedPage(posts: seq<Post>, kind: Option<string>, skip: nat, limit: nat): seq<Post>
  {
    Paginate(Reverse(Filter(posts, (p: Post) => Listed(p, kind))), skip, limit)
  }

  /** `getPosts`: defaults page 1 and 10 per page; a negative offset is a
      store error. */
  function GetPosts(posts: seq<Post>, users: seq<User>, viewer: Id, kind: Option<string>,
                    page: Option<nat>, limit: Option<nat>): (r: Response<PostList>)
    ensures var pg := if page.Some? then page.value else 1;
            var lim := if limit.Some? then limit.value else 10;
            && (r.Err? <==> SkipFor(pg, lim) < 0)
            && (r.Err? ==> r == Err(500, ServerError))
            && (r.Ok? ==>
                  var shown := ListedPage(posts, kind, SkipFor(pg, lim), lim);
                  && r.status == 200
                  && r.value.pagination.total == Count(posts, (p: Post) => Listed(p, kind))
                  && r.value.pagination.page == pg && r.value.pagination.limit == lim
                  && (lim > 0 ==> r.value.pagination.totalPages == Some(CeilDiv(r.value.pagination.total, lim))
                                  && |r.value.posts| <= lim)
                  && (lim == 0 ==> r.value.pagination.totalPages.None?)
                  && |r.value.posts| == |shown|
                  && forall i :: 0 <= i < |shown| ==> r.value.posts[i] == ListView(shown[i], users, viewer))
  {
    var pg := if page.Some? then page.value else 1;
    var lim := if limit.Some? then limit.value else 10;
    var skip := SkipFor(pg, lim);
    if skip < 0 then Err(500, ServerError)
    else
      var shown := ListedPage(posts, kind, skip, lim);
      var total := Count(posts, (p: Post) => Listed(p, kind));
      var views := seq(|shown|, i requires 0 <= i < |shown| => ListView(shown[i], users, viewer));
      Ok(200, PostList(views, Pagination(total, pg, lim, if lim > 0 then Some(CeilDiv(total, lim)) else None)))
  }

  /** Every post a listing shows is a stored, undeleted post of the asked
      type. */
  lemma ListedPageSound(posts: seq<Post>, kind: Option<string>, skip: nat, limit: nat)
    ensures var shown := ListedPage(posts, kind, skip, limit);
            forall p :: p in shown ==> p in posts && Listed(p, kind)
  {
    var f := Filter(posts, (p: Post) => Listed(p, kind));
    var rev := Reverse(f);
    var shown := ListedPage(posts, kind, skip, limit);
    forall p | p in shown ensures p in f {
      var k :| 0 <= k < |shown| && shown[k] == p;
      assert p == rev[Min(skip, |rev|) + k];
    }
  }

  /** Over a chronological store the listing runs newest first. */
  lemma ListedPageNewestFirst(posts: seq<Post>, kind: Option<string>, skip: nat, limit: nat)
    requires PostsChronological(posts)
    ensures var shown := ListedPage(posts, kind, skip, limit);
            forall i, j :: 0 <= i < j < |shown| ==> shown[i].createdAt >= shown[j].createdAt
  {
    FilterPostsChronological(posts, (p: Post) => Listed(p, kind));
    WindowNewestFirst(Filter(posts, (p: Post) => Listed(p, kind)), skip, limit);
  }

  lemma WindowNewestFirst(f: seq<Post>, skip: nat, limit: nat)
    requires PostsChronological(f)
    ensures var shown := Paginate(Reverse(f), skip, limit);
            forall i, j :: 0 <= i < j < |shown| ==> shown[i].createdAt >= shown[j].createdAt
  {
    var rev := Reverse(f);
    var shown := Paginate(rev, skip, limit);
    var lo := Min(skip, |rev|);
    forall i, j | 0 <= i < j < |shown| ensures shown[i].createdAt >= shown[j].createdAt {
      assert shown[i] == rev[lo + i] == f[|f| - 1 - (lo + i)];
      assert shown[j] == rev[lo + j] == f[|f| - 1 - (lo + j)];
    }
  }

  lemma {:induction false} FilterPostsChronological(s: seq<Post>, p: Post -> bool)
    requires PostsChronological(s)
    ensures PostsChronological(Filter(s, p))
  {
    if s != [] {
      FilterPostsChronological(s[1..], p);
      var rest := Filter(s[1..], p);
      if p(s[0]) {
        forall j | 0 <= j < |rest| ensures s[0].createdAt <= rest[j].createdAt {
          assert rest[j] in s[1..];
        }
      }
    }
  }

  /** The first stored post with this id that is not deleted
      (`findOne({_id, isDeleted: false})`). */
  function LivePostIndex(posts: seq<Post>, id: Id): (r: Option<nat>)
    ensures r.Some? ==> r.value < |posts| && posts[r.value].id == id && !posts[r.value].isDeleted
    ensures r.None? ==> forall i :: 0 <= i < |posts| && posts[i].id == id ==> posts[i].isDeleted
  {
    FirstIndex(posts, (p: Post) => p.id == id && !p.isDeleted)
  }

  /** The detail view adds whether the viewer wrote the post. */
  datatype PostDetail = PostDetail(view: PostView, isOwner: bool)

  /** `getPost`: 404 for a missing or deleted post. The author is masked
      (department included) exactly when the post is anonymous and the
      viewer is someone else, and otherwise shows the author's id, name,
      department, image and mbti; without an author record the handler
      fails. The post's own fields are shown as stored. */
  function GetPost(posts: seq<Post>, users: seq<User>, viewer: Id, id: Id): (r: Response<PostDetail>)
    ensures r == Err(404, PostNotFound) <==> LivePostIndex(posts, id).None?
    ensures r.Ok? ==>
              var p := posts[LivePostIndex(posts, id).value];
              && UserIndex(users, p.author).Some?
              && r.status == 200 && r.value.view.id == id
              && (r.value.isOwner <==> p.author == viewer)
              && r.value.view.likeCount == |p.likes| && (r.value.view.isLiked <==> viewer in p.likes)
              && r.value.view.author.Some?
              && ((IsMasked(r.value.view.author.value) && r.value.view.author.value.department == "")
                    <==> p.isAnonymous && p.author != viewer)
              && (!(p.isAnonymous && p.author != viewer) ==>
                    var u := users[UserIndex(users, p.author).value];
                    r.value.view.author == Some(AuthorView(Some(u.id), u.name, u.department,
                                                           u.profileImage, Some(u.mbti))))
              && r.value.view.kind == p.kind && r.value.view.title == p.title
              && r.value.view.description == p.description && r.value.view.images == p.images
              && r.value.view.participantsCount == p.participantsCount
              && r.value.view.genderPreference == p.genderPreference
              && r.value.view.isAnonymous == p.isAnonymous && r.value.view.createdAt == p.createdAt
    ensures r.Err? && r.status != 404 ==>
              LivePostIndex(posts, id).Some?
              && UserIndex(users, posts[LivePostIndex(posts, id).value].author).None?
              && r == Err(500, ServerError)
  {
    match LivePostIndex(posts, id)
    case None => Err(404, PostNotFound)
    case Some(i) =>
      var p := posts[i];
      match UserIndex(users, p.author)
      case None => Err(500, ServerError)
      case Some(a) =>
        var u := users[a];
        var author :=
          if p.isAnonymous && p.author != viewer then AuthorView(None, AnonymousName, "", "", None)
          else AuthorView(Some(u.id), u.name, u.department, u.profileImage, Some(u.mbti));
        var view := PostView(p.id, p.kind, p.title, p.description, p.participantsCount,
                             p.genderPreference, p.images, p.isAnonymous, p.createdAt,
                             Some(author), |p.likes|, viewer in p.likes);
        Ok(200, PostDetail(view, p.author == viewer))
  }

  /** The fields of a creation request, already parsed: `participantsCount`
      is `None` when it does not parse as a number. */
  datatype CreatePostRequest = CreatePostRequest(
    kind: Option<string>, title: Option<string>, description: Option<string>,
    participantsCount: Option<int>, genderPreference: Option<string>, isAnonymous: Scalar)

  /** `isAnonymous === 'true' || isAnonymous === true`. */
  predicate AnonymousFlag(v: Scalar)
  {
    v == SStr("true") || v == SBool(true)
  }

  /** The post `createPost` asks the store to create, before validation:
      title and description trimmed, description '' when absent, two
      participants when the count is absent or 0, gender preference 'any'
      when absent or empty, and the uploaded files' public paths. */
  function DraftPost(me: Id, req: CreatePostRequest, files: seq<string>, newId: Id, now: Time): (p: Post)
    requires req.kind.Some? && req.title.Some?
    ensures p.author == me && p.kind == req.kind.value
    ensures p.participantsCount ==
              (if req.participantsCount.None? || req.participantsCount.value == 0 then 2
               else req.participantsCount.value)
    ensures p.genderPreference == (if Present(req.genderPreference) then req.genderPreference.value else "any")
    ensures p.isAnonymous <==> AnonymousFlag(req.isAnonymous)
    ensures p.images == ImagePaths(files)
    ensures !p.isDeleted && p.likes == [] && p.createdAt == now && p.id == newId
  {
    var count := if req.participantsCount.None? || req.participantsCount.value == 0 then 2
                 else req.participantsCount.value;
    var gender := if Present(req.genderPreference) then req.genderPreference.value else "any";
    var description := if req.description.Some? then Trim(req.description.value) else "";
    NewPost(newId, me, req.kind.value, Trim(req.title.value), description, count, gender,
            ImagePaths(files), AnonymousFlag(req.isAnonymous), now)
  }

  /** The public paths of the uploaded files, in upload order. */
  function ImagePaths(files: seq<string>): (r: seq<string>)
    ensures |r| == |files| && forall k :: 0 <= k < |files| ==> r[k] == UploadsPrefix + files[k]
  {
    seq(|files|, k requires 0 <= k < |files| => UploadsPrefix + files[k])
  }

  /** The draft's title and description are the request's, trimmed; the
      schema's own `trim` setter finds nothing more to cut from the title. */
  lemma DraftPostTrimmed(me: Id, req: CreatePostRequest, files: seq<string>, newId: Id, now: Time)
    requires req.kind.Some? && req.title.Some?
    ensures var p := DraftPost(me, req, files, newId, now);
            && p.title == Trim(req.title.value)
            && p.description == (if req.description.Some? then Trim(req.description.value) else "")
  {
    TrimIdempotent(req.title.value);
  }

  /** The outcome of `createPost`: 400 without a type or a title, 500 when
      the draft fails the schema (an unknown type or preference, a count
      other than 2, 3 or 4, an empty or over-long title or description),
      otherwise 201 with the new post. */
  function CreatePostResult(me: Id, req: CreatePostRequest, files: seq<string>, newId: Id, now: Time): (r: Response<Post>)
    ensures r == Err(400, MissingTypeOrTitle) <==> !Present(req.kind) || !Present(req.title)
    ensures r.Ok? ==> r.status == 201 && ValidPost(r.value) && r.value == DraftPost(me, req, files, newId, now)
    ensures Present(req.kind) && Present(req.title) ==>
              (r.Ok? <==> ValidPost(DraftPost(me, req, files, newId, now)))
    ensures r.Err? && r.status != 400 ==> r == Err(500, ServerError)
  {
    if !Present(req.kind) || !Present(req.title) then Err(400, MissingTypeOrTitle)
    else
      var p := DraftPost(me, req, files, newId, now);
      if ValidPost(p) then Ok(201, p) else Err(500, ServerError)
  }

  /** `createPost` on the store: a created post is appended; nothing else
      changes. */
  method CreatePost(db: Db, me: Id, req: CreatePostRequest, files: seq<string>, newId: Id)
    returns (r: Response<Post>)
    requires db.Valid() && PostIndex(db.posts, newId).None?
    modifies db`posts
    ensures db.Valid()
    ensures r == CreatePostResult(me, req, files, newId, db.now)
    ensures r.Ok? ==> db.posts == old(db.posts) + [r.value]
    ensures r.Err? ==> db.posts == old(db.posts)
  {
    r := CreatePostResult(me, req, files, newId, db.now);
    if r.Ok? {
      assert r.value.id == newId;
      db.AppendPost(r.value);
    }
  }

  /** `deletePost`: a live post can be deleted by its author or an admin;
      deletion only sets `isDeleted`. */
  method DeletePost(db: Db, me: User, id: Id) returns (r: Response<()>)
    requires db.Valid()
    modifies db`posts
    ensures db.Valid()
    ensures r == Err(404, PostNotFound) <==> LivePostIndex(old(db.posts), id).None?
    ensures r == Err(403, DeleteForbidden) <==>
              LivePostIndex(old(db.posts), id).Some?
              && old(db.posts)[LivePostIndex(old(db.posts), id).value].author != me.id && me.role != Admin
    ensures r.Err? ==> db.posts == old(db.posts)
    ensures r.Ok? ==>
              var i := LivePostIndex(old(db.posts), id).value;
              r.status == 200 && db.posts == old(db.posts)[i := old(db.posts)[i].(isDeleted := true)]
  {
    var found := LivePostIndex(db.posts, id);
    if found.None? {
      return Err(404, PostNotFound);
    }
    var i := found.value;
    if db.posts[i].author != me.id && me.role != Admin {
      return Err(403, DeleteForbidden);
    }
    var p := db.posts[i].(isDeleted := true);
    UpdatePostValid(db.posts, db.now, i, p);
    db.posts := db.posts[i := p];
    return Ok(200, ());
  }

  /** The likes list after one toggle: the viewer is appended when absent,
      otherwise their first occurrence is removed. */
  function Toggle(likes: seq<Id>, me: Id): (r: seq<Id>)
    ensures me !in likes ==> r == likes + [me]
    ensures me in likes ==> |r| == |likes| - 1 && multiset(r) == multiset(likes) - multiset{me}
  {
    match FirstIndex(likes, (x: Id) => x == me)
    case None => likes + [me]
    case Some(k) =>
      assert likes == likes[..k] + [me] + likes[k + 1..];
      likes[..k] + likes[k + 1..]
  }

  /** A toggle keeps the list free of duplicates, and the viewer is in the
      result exactly when they were not in the list. */
  lemma ToggleKeepsDistinct(likes: seq<Id>, me: Id)
    requires NoDuplicates(likes)
    ensures NoDuplicates(Toggle(likes, me))
    ensures me in Toggle(likes, me) <==> me !in likes
  {
    var r := Toggle(likes, me);
    if me in likes {
      var k := FirstIndex(likes, (x: Id) => x == me).value;
      assert r == likes[..k] + likes[k + 1..];
      forall a, b | 0 <= a < b < |r| ensures r[a] != r[b] {
        var a' := if a < k then a else a + 1;
        var b' := if b < k then b else b + 1;
        assert r[a] == likes[a'] && r[b] == likes[b'];
      }
      forall j | 0 <= j < |r| ensures r[j] != me {
        var j' := if j < k then j else j + 1;
        assert r[j] == likes[j'] && j' != k;
      }
    } else {
      forall a, b | 0 <= a < b < |r| ensures r[a] != r[b] {
        if b == |likes| { assert r[a] == likes[a]; }
      }
    }
  }

  /** Toggling twice from "not liked" gives back the very same list. */
  lemma ToggleTwiceFromAbsent(likes: seq<Id>, me: Id)
    requires me !in likes
    ensures Toggle(Toggle(likes, me), me) == likes
  {
    var once := likes + [me];
    assert once[|likes|] == me;
    var f := FirstIndex(once, (x: Id) => x == me);
    assert f.Some?;
    var k := f.value;
    assert k == |likes|;
    assert once[..k] == likes;
  }

  /** Toggling twice from "liked" (with no duplicates, which the toggle
      keeps) gives back the same likes, with the viewer moved to the end. */
  lemma ToggleTwiceFromPresent(likes: seq<Id>, me: Id)
    requires me in likes && NoDuplicates(likes)
    ensures multiset(Toggle(Toggle(likes, me), me)) == multiset(likes)
    ensures Toggle(Toggle(likes, me), me)[|likes| - 1] == me
  {
    ToggleKeepsDistinct(likes, me);
  }

  datatype LikeResult = LikeResult(likeCount: nat, isLiked: bool)

  /** `toggleLike`: 404 for a missing or deleted post; otherwise the likes
      list is toggled, and the answer gives its new length and whether the
      viewer was absent before, that is whether they now like the post. */
  method ToggleLike(db: Db, me: Id, id: Id) returns (r: Response<LikeResult>)
    requires db.Valid()
    modifies db`posts
    ensures db.Valid()
    ensures r.Err? <==> LivePostIndex(old(db.posts), id).None?
    ensures r.Err? ==> r == Err(404, PostNotFound) && db.posts == old(db.posts)
    ensures r.Ok? ==>
              var i := LivePostIndex(old(db.posts), id).value;
              var likes := Toggle(old(db.posts)[i].likes, me);
              && db.posts == old(db.posts)[i := old(db.posts)[i].(likes := likes)]
              && r == Ok(200, LikeResult(|likes|, me !in old(db.posts)[i].likes))
  {
    var found := LivePostIndex(db.posts, id);
    if found.None? {
      return Err(404, PostNotFound);
    }
    var i := found.value;
    var before := db.posts[i].likes;
    var likedIndex := FirstIndex(before, (x: Id) => x == me);
    var likes: seq<Id>;
    if likedIndex.None? {
      likes := before + [me];
    } else {
      var k := likedIndex.value;
      likes := before[..k] + before[k + 1..];
    }
    var p := db.posts[i].(likes := likes);
    UpdatePostValid(db.posts, db.now, i, p);
    db.posts := db.posts[i := p];
    return Ok(200, LikeResult(|likes|, likedIndex.None?));
  }
}
