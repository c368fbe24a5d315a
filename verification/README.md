# Campus dating platform backend — Dafny model

This project models the server side of a campus dating and meeting platform.
The server is an Express/Mongoose REST API with a socket.io chat. Students
sign in with Google through Firebase. Only addresses of the school's email
domain, plus the configured admin addresses, are admitted. A signed-in
student can:

- complete a profile, with an optional anonymous mode;
- publish "date request" posts (one-to-one or group), with up to five images;
- like posts and report abusive users;
- chat in direct rooms and in group rooms tied to a post.

Admins review the report queue, suspend and unsuspend users, delete posts
and read dashboard counts.

The model is one Dafny module per source file:

- **Common, Text, Collections:** shared vocabulary and JavaScript/MongoDB
  building blocks. These are `trim`, `slice`, `split`, `replace` and
  `toLowerCase`; `findOne` as the first match, `countDocuments`; and a
  cursor's `sort`/`skip`/`limit`.
- **UserModel, PostModel, ReportModel, ChatRoomModel, MessageModel:** the
  Mongoose schemas. Each is a record datatype, a validity predicate with the
  schema's validators, and the document `create` builds. Setters
  (`trim`, `lowercase`) and defaults are applied; validity holds exactly when
  the validators pass. Lengths are counted in UTF-16 code units, as
  JavaScript's `length` and `slice` and Mongoose's `maxlength` count them.
- **Store:** the database as one class, `Db`. It holds one `seq` per
  collection in natural (insertion) order, and the server clock. `Db.Valid()`
  is the invariant every handler keeps:
  - unique ids and unique emails;
  - every stored user, post, room and message passes its schema. A stored
    report passes the validators that run when it is created, but its
    status can be any string after `updateReportStatus`;
  - documents are in creation order, so "newest first" is the reverse of
    natural order.
- **AuthMiddleware, AuthController, UserController, PostController,
  ReportController, AdminController, ChatController:** one function or method
  per handler. Pure decisions are functions. Handlers that write the store
  are methods on `Db` whose postconditions give the response and the new
  collections.
- **ChatSocket:** the socket server as the class `ChatServer`. It holds the
  sessions, each connection's set of joined rooms, and an outbox of
  emissions (the event together with the connections it reaches). Every
  event handler is one atomic step.
- **Upload:** the multer configuration. It covers `path.extname`, the image
  type filter, the stored file name, and the size and count limits.

Outside inputs become parameters:

- the verification of tokens (`jwt.verify`, Firebase `verifyIdToken`) is a
  function from the token to a verdict;
- ids of new documents, the clock, the uploaded file names and the
  environment variables are passed in.

Every refusal carries its HTTP status and a `Reason` naming the source's
error message.

Where the prose description of the system and the code differ, the model
follows the code:

- `typing` is relayed to the room whether or not the sender takes part in it.
- `new_message` goes to the connections that joined the socket room, which
  includes the sender only if their connection joined.
- `getMessages` answers 404 for a room the caller does not take part in.
- The domain check runs on the address exactly as the token gives it, not
  lower-cased. Its "domain" is the text between the first and the second
  `@`.
- `page=0` gives a negative `skip`, which the store refuses with a 500.
  `limit=0` means no limit.
- `updateReportStatus` stores any status, because its update skips the
  schema validators.

## Model

| member | source | states |
|---|---|---|
| UserModel.NewUser | backend/src/models/User.js:3-81 | a created user has the lower-cased, trimmed email and trimmed name, an empty profile, is not suspended and not complete; it passes validation iff the normalised email and trimmed name are non-empty |
| UserModel.EmptyProfileValid | backend/src/models/User.js:3-81 | a record with the empty profile `create` gives is valid iff its normalised email and trimmed name are non-empty |
| UserModel.NormalizeEmailIdempotent | backend/src/models/User.js:5-11 | the email setters produce a normalised address and applying them again changes nothing |
| UserModel.NormalizedFixed | backend/src/models/User.js:5-11 | an address that is already lower-case and trimmed is stored as given |
| PostModel.NewPost | backend/src/models/Post.js:3-56 | a created post has the trimmed title, no likes, is not deleted; it is valid iff type, participant count and gender preference are admitted values, the trimmed title is non-empty and at most 100 UTF-16 code units and the description at most 1000 |
| ReportModel.NewReport | backend/src/models/Report.js:3-50 | a created report is pending and unreviewed, and is valid iff the reason is one of the six admitted reasons and the detail is at most 500 UTF-16 code units |
| ChatRoomModel.NewRoom | backend/src/models/ChatRoom.js:3-35 | a created room is active, has no last message and keeps the given type, post, participants and name |
| UserModel.Unsuspended | backend/src/middleware/auth.js:31-33 | lifting a suspension (when it has expired, and likewise in `unsuspendUser`) clears the flag and the end date and changes nothing else |
| MessageModel.NewMessage | backend/src/models/Message.js:3-32 | a created message is unread and read by nobody; it is valid iff its content is non-empty and at most 2000 UTF-16 code units |
| Store.UserIndex | backend/src/middleware/auth.js:18 | `findById` finds a user with that id, or there is none |
| Store.EmailIndex | backend/src/controllers/authController.js:43 | `findOne({email})` finds a user with that address, or there is none |
| Store.PostIndex | backend/src/controllers/chatController.js:46 | `findById` on posts finds a post with that id, deleted or not, or there is none |
| Store.RoomIndex | backend/src/socket/chatSocket.js:74-80 | `findByIdAndUpdate` on rooms finds the room with that id, or there is none |
| Store.ReportIndex | backend/src/controllers/adminController.js:89-94 | `findByIdAndUpdate` on reports finds the report with that id, or there is none |
| Store.AppendUserValid | backend/src/models/User.js:5-11 | adding a valid user with a fresh id and an address no one has keeps the users valid (unique email index) |
| Store.AppendPostValid | backend/src/models/Post.js:3-56 | adding a valid post created now with a fresh id keeps the posts valid and in creation order |
| Store.AppendMessageValid | backend/src/models/Message.js:3-32 | adding a valid message created now keeps the messages valid and in creation order |
| Store.AppendReportValid | backend/src/models/Report.js:3-50 | adding a report that passes the creation validators keeps the reports valid and in creation order |
| Store.UpdateReportValid | backend/src/controllers/adminController.js:89-93 | replacing a report by one with the same id, creation time and validated fields keeps the reports valid, whatever its status |
| Store.UpdateUserValid | backend/src/models/User.js:3-81 | replacing a user by a valid record with the same id and address keeps the users valid |
| Store.UpdatePostValid | backend/src/models/Post.js:3-56 | replacing a post by a valid record with the same id and creation time keeps the posts valid |
| Store.Db.AppendPost | backend/src/controllers/postController.js:96-105 | `Post.create` of a validated post stamped now appends it as the newest post and keeps the store valid |
| Store.Db.AppendMessage | backend/src/socket/chatSocket.js:65-69 | `Message.create` of a validated message stamped now appends it as the newest message and keeps the store valid |
| Collections.FirstIndex | backend/src/controllers/chatController.js:26-29 | `findOne` returns the first document in natural order that matches, or none matches |
| Collections.FirstIndexSame | backend/src/controllers/chatController.js:26-29 | two queries that agree on every document find the same first match |
| Collections.FirstIndexAppend | backend/src/controllers/authController.js:43-53 | after a create, a query nothing matched before finds the new document |
| Collections.FirstIndexUpdate | backend/src/controllers/authController.js:54-65 | saving the found document so that it still matches keeps the first match where it was |
| Collections.FirstIndexUpdateSame | backend/src/socket/chatSocket.js:74-80 | replacing a document by one the query judges alike keeps the first match |
| Collections.Filter | backend/src/controllers/chatController.js:87-90 | `find(filter)` returns only stored documents that match, and every stored document that matches |
| Collections.CountUpdate | backend/src/controllers/adminController.js:105-117 | replacing one document changes a `countDocuments` by what the old and new document contribute |
| Collections.Reverse | backend/src/controllers/chatController.js:123 | `reverse()` puts element `i` at position `n-1-i` |
| Collections.Paginate | backend/src/controllers/postController.js:18-21 | `skip(s).limit(l)` is the slice starting at `s` of length `l`, the rest of the sequence for limit 0 |
| Collections.SkipFor | backend/src/controllers/postController.js:15 | `(page - 1) * limit` is `-limit` for page 0 and a non-negative offset ending one page before `page * limit` otherwise |
| Collections.NewestFirstWindow | backend/src/controllers/chatController.js:116-123 | the newest-first page, reversed, is the contiguous slice ending `skip` elements before the newest and holding `limit` elements (all older ones for limit 0) |
| Text.Trim | backend/src/controllers/postController.js:99 | `trim()` leaves a string with no white space at either end and no longer than the input |
| Text.TrimIsInfix | backend/src/controllers/postController.js:99 | what `trim()` keeps is an infix of the input and everything it cuts off is white space |
| Text.TrimEmptyIff | backend/src/socket/chatSocket.js:54 | `content.trim()` is empty exactly when the content is all white space |
| Text.TrimIdempotent | backend/src/models/Post.js:15-20 | trimming a trimmed string changes nothing, so the schema's `trim` setter after the handler's `trim()` has no effect |
| Text.Prefix | backend/src/controllers/userController.js:20 | `slice(0, n)` on an array is a prefix of at most `n` elements, all of the input when it is short enough |
| Text.Utf16Length | backend/src/models/Message.js:15-19 | a string's `length` counts UTF-16 code units: between its character count and twice it |
| Text.BmpLength | backend/src/models/Message.js:15-19 | text within the Basic Multilingual Plane has one code unit per character |
| Text.AstralLength | backend/src/models/Message.js:15-19 | one character outside the Basic Multilingual Plane makes the code-unit length exceed the character count |
| Text.Utf16LengthAppend | backend/src/models/Message.js:15-19 | the code-unit length of a concatenation is the sum of the lengths |
| Text.Utf16Prefix | backend/src/controllers/userController.js:19 | `slice(0, n)` on a string is a prefix within `n` code units, all of it when it fits, and the next character would not fit |
| Text.Utf16PrefixLength | backend/src/controllers/userController.js:19 | a cut string has `n` code units, or `n - 1` exactly when a surrogate pair straddles the cut |
| Text.IndexOf | backend/src/controllers/userController.js:88 | `indexOf` finds the first occurrence of the pattern, or it occurs nowhere |
| Text.BeforeFirst | backend/src/controllers/userController.js:88 | `split(pat)[0]` is the longest prefix without an occurrence of the pattern, followed in the input by the pattern when shorter than it |
| Text.ReplaceFirst | backend/src/middleware/upload.js:25 | `replace` with a string pattern replaces the first occurrence only, and nothing when there is none |
| Text.Split | backend/src/controllers/authController.js:32-33 | `split(sep)` gives at least one part and no part contains the separator |
| Text.JoinSplit | backend/src/controllers/authController.js:32-33 | joining the parts of a split with the separator gives back the string |
| Text.SplitJoin | backend/src/controllers/authController.js:32-33 | splitting a join of separator-free parts gives back the parts |
| Text.ToLower | backend/src/middleware/upload.js:17 | `toLowerCase` maps each character, and only ASCII capitals change |
| Text.ToLowerIdempotent | backend/src/middleware/upload.js:17 | lower-casing twice is lower-casing once |
| Text.TrimKeepsLower | backend/src/models/User.js:9-10 | trimming a lower-case string leaves it lower-case |
| Upload.ExtnameOf | backend/src/middleware/upload.js:17 | `path.extname` of a segment is empty or a '.' followed by no other '.', and is a suffix of the segment |
| Upload.ExtnameOfStemAndExtension | backend/src/middleware/upload.js:17 | the extension of `stem.ext` is `.ext` for a non-empty stem without '/', and an extension without '/' or '.' (the name `..` excepted) |
| Upload.DotFileHasNoExtension | backend/src/middleware/upload.js:17 | a name whose only '.' is its first character has no extension |
| Upload.FileFilter | backend/src/middleware/upload.js:22-31 | the filter either accepts or refuses with 500 and the file-type reason |
| Upload.AcceptedWhereverTypeOccurs | backend/src/middleware/upload.js:23-27 | the type test is unanchored: 'jpg', 'jpeg' or 'png' anywhere in the (any-case) extension and in the MIME type after its first 'image/' is enough to accept |
| Upload.DotFileRefused | backend/src/middleware/upload.js:22-31 | a file named like '.png' has no extension and is refused whatever its MIME type |
| Upload.StoredFilename | backend/src/middleware/upload.js:16-19 | the stored name is the fresh id followed by the extension, lower-cased |
| Upload.AcceptedFileStoredAsImage | backend/src/middleware/upload.js:16-31 | an accepted file is stored under its id followed by an extension that passes the type test |
| Upload.MaxFileSize | backend/src/middleware/upload.js:36 | the size limit is the parsed MAX_FILE_SIZE, or 5 MB when it is missing, not a number or 0 |
| Upload.FileRefusal | backend/src/middleware/upload.js:22-40 | a file is refused iff the filter refuses it or it exceeds the size limit |
| Upload.FirstRefusal | backend/src/middleware/upload.js:37 | there is no refusal iff the files fit the allowed count and each is accepted on its own |
| Upload.AcceptFiles | backend/src/middleware/upload.js:33-40 | a request's files are all kept iff there are at most the field's count and at most 5 and each passes filter and size, each then stored under its id and lower-cased extension; otherwise 500 |
| AuthMiddleware.SplitHead | backend/src/middleware/auth.js:15 | the first part of a split on ' ' is the text before the first space |
| AuthMiddleware.BearerToken | backend/src/middleware/auth.js:10-15 | no token iff the header is missing, empty or does not start with "Bearer "; otherwise the token is the second space-separated field |
| AuthMiddleware.CheckSuspension | backend/src/middleware/auth.js:23-30 | a suspended user stays blocked iff there is no end date or it lies in the future; otherwise the suspension is over |
| AuthMiddleware.Authenticate | backend/src/middleware/auth.js:8-45 | each failure (no token, expired, invalid, unknown user, still suspended) gets its 401/403 and changes nothing; an expired suspension is lifted and saved; otherwise the stored user is returned |
| AuthMiddleware.RequireAdmin | backend/src/middleware/auth.js:50-55 | passes iff there is a user and that user is an admin, else 403 |
| AuthMiddleware.RequireCompleteProfile | backend/src/middleware/auth.js:60-68 | passes iff the profile is complete, else 403 with the PROFILE_INCOMPLETE reason |
| AuthController.CleanEntries | backend/src/controllers/authController.js:32 | `map(trim).filter(Boolean)` keeps only non-empty, trimmed entries |
| AuthController.MemberSound | backend/src/controllers/authController.js:32 | every admin entry is some comma-separated part, trimmed, and non-empty |
| AuthController.MemberComplete | backend/src/controllers/authController.js:32 | every part that is not blank after trimming is an admin entry |
| AuthController.TrimWithout | backend/src/controllers/authController.js:32 | trimming introduces no character |
| AuthController.CleanEntriesWithout | backend/src/controllers/authController.js:32 | a character in no part is in no entry |
| AuthController.AdminList | backend/src/controllers/authController.js:32 | the admin list holds non-empty, trimmed addresses without ',' |
| AuthController.CleanEntriesOfClean | backend/src/controllers/authController.js:32 | already clean entries pass through unchanged |
| AuthController.AdminListRoundTrip | backend/src/controllers/authController.js:32 | ADMIN_EMAILS written as a comma-joined list of clean addresses yields exactly that list |
| AuthController.NoAdminsByDefault | backend/src/controllers/authController.js:32 | with ADMIN_EMAILS unset or empty there is no admin address |
| AuthController.DomainIsSecondPart | backend/src/controllers/authController.js:33 | the domain checked is the second '@'-separated part, whatever follows it |
| AuthController.AdmittedAddress | backend/src/controllers/authController.js:33-40 | `local@domain` is admitted iff the domain is the allowed one or the address is an admin address |
| AuthController.AddressWithoutAt | backend/src/controllers/authController.js:33-40 | an address without '@' is admitted iff it is an admin address |
| AuthController.NoDomainWithoutAt | backend/src/controllers/authController.js:33 | an address without '@' has no domain part |
| AuthController.LoginFailure | backend/src/controllers/authController.js:81-90 | the expiry code gives the expired 401, any other 'auth/' code the invalid 401, anything else 500 |
| AuthController.LoginUpdate | backend/src/controllers/authController.js:54-65 | an admin address forces the admin role, the token picture fills an empty profile image, nothing else changes |
| AuthController.NewAccountShape | backend/src/controllers/authController.js:45-53 | a first login creates the normalised address, the trimmed token name or local part, the token picture and uid, the admin role iff an admin address, incomplete and unsuspended; valid iff address and name are non-empty |
| AuthController.SignIn | backend/src/controllers/authController.js:42-65 | a failed sign-in (invalid new account) is a 500 that changes no user; a success is 200 and removes no user |
| AuthController.Admit | backend/src/controllers/authController.js:27-65 | a refusal changes no user; a success is 200 and removes no user |
| AuthController.Login | backend/src/controllers/authController.js:16-91 | without an ID token 400 and nothing changes; every refusal changes no user; a success is 200 and removes no user |
| AuthController.LoginOutcomes | backend/src/controllers/authController.js:18-65 | a rejected token gives the Firebase failure, no email 400, a non-admitted address 403; login succeeds iff the token is accepted, its email present and admitted, and the user exists or the new account is valid |
| AuthController.FirstLogin | backend/src/controllers/authController.js:42-80 | a first login with an admitted address and a valid new account answers 200 with that account, appended to the users |
| AuthController.ReturningUser | backend/src/controllers/authController.js:54-80 | a returning user's record changes only by the login update, the response shows it, and an admin is never demoted |
| AuthController.SignInKeepsValid | backend/src/controllers/authController.js:42-65 | sign-in keeps the users valid (unique ids and addresses, every record passing its schema) |
| AuthController.LoginKeepsValid | backend/src/controllers/authController.js:16-65 | login keeps the users valid |
| AuthController.LoginUpdateIdempotent | backend/src/controllers/authController.js:54-65 | the login update applied twice is applied once |
| AuthController.LoginAgainChangesNothing | backend/src/controllers/authController.js:16-80 | logging in again with the same token changes no user and shows the same user |
| AuthController.SignInAgain | backend/src/controllers/authController.js:42-65 | a second sign-in for the same address finds the first one's record and leaves it as it is |
| AuthController.GoogleLogin | backend/src/controllers/authController.js:16-91 | the response and new users are those of `Login`, and the store stays valid |
| UserController.ApplyProfile | backend/src/controllers/userController.js:9-33 | the profile becomes complete iff it was or the final department is non-empty; identity, role, suspension and image are untouched |
| UserController.UnsentFieldsUnchanged | backend/src/controllers/userController.js:14-21 | fields that are not sent keep their stored values |
| UserController.SentFieldsNormalised | backend/src/controllers/userController.js:14-21 | sent fields are stored trimmed (department, student id), cut (bio to the whole characters within 300 UTF-16 code units, interests to 10, none when not a list), coerced (anonymity) or as sent |
| UserController.ApplyProfileIdempotent | backend/src/controllers/userController.js:9-33 | sending the same update twice is sending it once |
| UserController.ApplyProfileValid | backend/src/controllers/userController.js:30-33 | an update that passes the validators keeps the user valid |
| UserController.UpdateProfile | backend/src/controllers/userController.js:9-40 | succeeds iff the validators pass and the user exists or a department is sent; an existing user's record is replaced by its update and returned without the Google id, an unknown one gets 200 with no user; otherwise 500 and nothing changes |
| UserController.UploadProfileImage | backend/src/controllers/userController.js:46-68 | 400 without a file; 500 for an unknown user; otherwise the image becomes `/uploads/<name>`, which is returned |
| UserController.MaskedDepartment | backend/src/controllers/userController.js:88 | the masked department is empty iff the department is, cut after the first '학과' when there is one, else the department followed by '학과' |
| UserController.MaskedDepartmentIsPrefix | backend/src/controllers/userController.js:88 | when the department contains '학과' the mask is a prefix of it |
| UserController.GetUserProfile | backend/src/controllers/userController.js:74-95 | 404 iff the user is unknown; an anonymous user seen by another shows '익명', no image and the masked department; otherwise the public fields as stored |
| UserController.OwnProfileUnmasked | backend/src/controllers/userController.js:83 | a user always sees their own profile unmasked |
| PostController.ListView | backend/src/controllers/postController.js:27-36 | a listed view reports the like count and whether the viewer liked it; an anonymous post shows a masked author keeping only the department; otherwise the author when their record exists |
| PostController.CeilDiv | backend/src/controllers/postController.js:44 | the page count is the least number of pages of the given size that hold all the posts |
| PostController.GetPosts | backend/src/controllers/postController.js:9-51 | 500 iff the offset is negative; otherwise the total counts the listed posts, the page holds at most `limit` views of the page's posts, page count is the ceiling (none for limit 0) |
| PostController.ListedPageSound | backend/src/controllers/postController.js:12-24 | every listed post is stored, undeleted and of the asked type |
| PostController.ListedPageNewestFirst | backend/src/controllers/postController.js:17-21 | the listing runs newest first |
| PostController.WindowNewestFirst | backend/src/controllers/postController.js:18-21 | a page of the reversed chronological posts runs newest first |
| PostController.FilterPostsChronological | backend/src/controllers/postController.js:18-19 | filtering keeps the posts in creation order |
| PostController.LivePostIndex | backend/src/controllers/postController.js:129 | `findOne({_id, isDeleted: false})` finds a live post with that id, or every post with that id is deleted |
| PostController.GetPost | backend/src/controllers/postController.js:57-80 | 404 iff no live post; otherwise like count, liked and owner flags, and the author masked exactly when the post is anonymous and the viewer is someone else, otherwise the author's id, name, department, image and mbti; the post's own fields as stored; a missing author record is a 500 |
| PostController.DraftPost | backend/src/controllers/postController.js:94-105 | the created post has the author, the type, 2 participants when the count is absent or 0, 'any' when no preference, the anonymity flag iff 'true' or true, the image paths, no likes |
| PostController.ImagePaths | backend/src/controllers/postController.js:94 | each uploaded file gives `/uploads/<name>`, in upload order |
| PostController.DraftPostTrimmed | backend/src/controllers/postController.js:99-100 | title and description are the request's, trimmed, description '' when absent |
| PostController.CreatePostResult | backend/src/controllers/postController.js:86-121 | 400 iff type or title is missing; otherwise 201 iff the draft passes the schema, else 500 |
| PostController.CreatePost | backend/src/controllers/postController.js:86-121 | a created post is appended and nothing else changes; a refusal changes nothing |
| PostController.DeletePost | backend/src/controllers/postController.js:127-148 | 404 iff no live post; 403 iff the caller is neither author nor admin; otherwise only `isDeleted` of that post is set |
| PostController.Toggle | backend/src/controllers/postController.js:160-166 | an absent viewer is appended; a present one has one occurrence removed |
| PostController.ToggleKeepsDistinct | backend/src/controllers/postController.js:160-166 | a toggle keeps likes free of duplicates and the viewer is in the result iff they were not before |
| PostController.ToggleTwiceFromAbsent | backend/src/controllers/postController.js:160-166 | two toggles from "not liked" restore the list exactly |
| PostController.ToggleTwiceFromPresent | backend/src/controllers/postController.js:160-166 | two toggles from "liked" restore the same likes, the viewer moved to the end |
| PostController.ToggleLike | backend/src/controllers/postController.js:154-173 | 404 iff no live post; otherwise the likes are toggled and the answer is the new count and whether the viewer was absent before |
| ReportController.DraftReport | backend/src/controllers/reportController.js:29-35 | a new report is pending, from the caller, with the detail cut to the whole characters within 500 UTF-16 code units (all of it when it fits) or '', and an empty post reference dropped |
| ReportController.ReportDecision | backend/src/controllers/reportController.js:7-42 | 400 iff a field is missing, 400 iff self-report, 429 iff a report on that user within 24 hours, success iff none of these and the reason is admitted, then 201 with the valid draft |
| ReportController.CreateReport | backend/src/controllers/reportController.js:7-42 | only an accepted report is appended, exactly once; a refusal changes nothing |
| ReportController.RepeatWithinDayRefused | backend/src/controllers/reportController.js:19-28 | after an accepted report, the same reporter on the same user is refused with 429 for the next 24 hours |
| ReportController.OldReportsDoNotBlock | backend/src/controllers/reportController.js:20-24 | reports older than 24 hours do not block |
| AdminController.GetReports | backend/src/controllers/adminController.js:9-29 | 500 iff the offset is negative; otherwise the total counts reports with the status (pending by default), and the page holds at most `limit` stored reports with that status |
| AdminController.ReportsPageSound | backend/src/controllers/adminController.js:15-18 | every report listed is stored and has the asked status |
| AdminController.Suspended | backend/src/controllers/adminController.js:42-43 | a suspension sets the flag and the end date `days` days from now, and nothing else |
| AdminController.SuspendUser | backend/src/controllers/adminController.js:35-50 | 404 iff the user is unknown, 403 iff an admin; otherwise suspended for the days given (7 by default) |
| AdminController.UnsuspendUser | backend/src/controllers/adminController.js:56-66 | always 200; the user with that id, if any, is no longer suspended |
| AdminController.SuspendThenUnsuspend | backend/src/controllers/adminController.js:35-66 | suspending then unsuspending an unsuspended user gives back the same record |
| AdminController.AdminDeletePost | backend/src/controllers/adminController.js:72-80 | 404 iff no post with that id; otherwise that post, deleted or not, is marked deleted |
| AdminController.Reviewed | backend/src/controllers/adminController.js:86-92 | the report records the status as given (or keeps it), the reviewing admin and the time; it stays fully valid iff the status is admitted |
| AdminController.UpdateReportStatus | backend/src/controllers/adminController.js:86-99 | 404 iff the report is unknown; otherwise the reviewed report replaces it and is returned |
| AdminController.GetStats | backend/src/controllers/adminController.js:105-117 | the counts are all users, posts not deleted, pending reports and suspended users |
| AdminController.SuspensionCounted | backend/src/controllers/adminController.js:105-117 | suspending an unsuspended user raises the suspended count by one and leaves the others alone |
| AdminController.DeletionCounted | backend/src/controllers/adminController.js:105-117 | deleting a live post lowers the post count by one and leaves the others alone |
| ChatController.DirectRoomIndexSymmetric | backend/src/controllers/chatController.js:26-29 | the direct-room lookup does not depend on which of the two users asks |
| ChatController.RoomStepEffects | backend/src/controllers/chatController.js:12-79 | a refusal leaves rooms untouched; 201 appends exactly the new active room; 200 returns or updates one stored room that has the caller |
| ChatController.DirectRequestRefusals | backend/src/controllers/chatController.js:17-23 | a direct request without target or with the caller as target is refused with 400 and changes nothing |
| ChatController.DirectRoomIdempotent | backend/src/controllers/chatController.js:17-39 | once a direct request succeeds, asking again by either user returns the same room and changes nothing |
| ChatController.GroupRoomIdempotent | backend/src/controllers/chatController.js:41-62 | once a group request succeeds the caller is a participant, and asking again returns the same room and changes nothing |
| ChatController.GroupJoinNoDuplicates | backend/src/controllers/chatController.js:54-69 | a group request never gives a room a duplicate participant |
| ChatController.RoomStepKeepsMembership | backend/src/controllers/chatController.js:12-79 | no request removes a room or a participant |
| ChatController.NewGroupRoomShape | backend/src/controllers/chatController.js:64-71 | a new group room has the caller alone, is linked to its post and named after the post's title |
| ChatController.OtherTypeRefused | backend/src/controllers/chatController.js:74 | any type other than 'direct' and 'group' is refused with 400 and changes nothing |
| ChatController.CreateOrGetRoom | backend/src/controllers/chatController.js:12-79 | the store's rooms and the response are those of `RoomStep`, and the store stays valid |
| ChatController.RanksTotal | backend/src/controllers/chatController.js:91 | any two rooms can be ordered by the list order |
| ChatController.RanksTransitive | backend/src/controllers/chatController.js:91 | the list order is transitive |
| ChatController.Insert | backend/src/controllers/chatController.js:91 | inserting into a list-ordered sequence keeps it ordered and adds exactly that room |
| ChatController.SortRooms | backend/src/controllers/chatController.js:91 | the sort result is in list order and a permutation of its input |
| ChatController.MyRooms | backend/src/controllers/chatController.js:85-99 | the room list is in list order and holds exactly the caller's active rooms, each as often as stored |
| ChatController.HistoryPageWindow | backend/src/controllers/chatController.js:116-123 | a history page is the contiguous slice ending `(page-1)*limit` messages before the newest, of at most `limit` messages |
| ChatController.FilterChronological | backend/src/controllers/chatController.js:117-118 | one room's messages are in time order when the log is |
| ChatController.AdjacentPages | backend/src/controllers/chatController.js:116-123 | page `page+1` ends where page `page` starts |
| ChatController.HistoryPagesOrdered | backend/src/controllers/chatController.js:116-123 | each page is in ascending time order, the next page holds older messages, and together they are one stretch of the history |
| ChatController.WindowInRoom | backend/src/controllers/chatController.js:117-123 | every message in a history window is a stored message of that room |
| ChatController.GetMessages | backend/src/controllers/chatController.js:105-127 | 404 iff the caller is not a participant; success iff participant and the offset is not negative, with the history page of the room's stored messages |
| ChatSocket.CheckHandshake | backend/src/socket/chatSocket.js:8-22 | a connection is accepted iff the token is present, verifies and names a stored user, whose id, name and image the session keeps; otherwise the missing, invalid or unknown-user refusal |
| ChatSocket.SenderOf | backend/src/socket/chatSocket.js:71 | the populated sender exists iff the user does, and is that user |
| ChatSocket.StoredContent | backend/src/socket/chatSocket.js:54-69 | the stored content is the trimmed text cut to the whole characters within 2000 UTF-16 code units (all of it when it fits), non-empty when the trimmed text is |
| ChatSocket.WithLastMessage | backend/src/socket/chatSocket.js:74-80 | the room's last-message summary becomes the message's content, sender and time, and its update time becomes the message's time; identity and participants are kept |
| ChatSocket.ChatServer.constructor | backend/src/socket/chatSocket.js:6 | the socket server starts with no session, no joined room and nothing emitted |
| ChatSocket.ChatServer.GroupHoldsMembers | backend/src/socket/chatSocket.js:28-44 | only participants' connections are in a socket room |
| ChatSocket.ChatServer.Connect | backend/src/socket/chatSocket.js:8-22 | an accepted connection gets its session and no joined room; a refused one changes nothing |
| ChatSocket.ChatServer.JoinRoom | backend/src/socket/chatSocket.js:28-44 | a participant joins and is told so; anyone else gets the access error and joins nothing; both answers go to the requester only |
| ChatSocket.ChatServer.LeaveRoom | backend/src/socket/chatSocket.js:47-49 | leaving removes the room from the connection's set and nothing else; the connection no longer receives the room's events |
| ChatSocket.ChatServer.SendMessage | backend/src/socket/chatSocket.js:52-88 | blank content is dropped silently; a non-participant gets the access error; otherwise one message with the stored content is appended, the room's summary updated, and the event emitted to the room's joined connections |
| ChatSocket.ChatServer.Typing | backend/src/socket/chatSocket.js:91-97 | the indicator goes to every other joined connection of the room, never to the sender |
| ChatSocket.ChatServer.Disconnect | backend/src/socket/chatSocket.js:99-101 | the connection's session ends and it is in no socket room |
| ChatSocket.MembershipAfterUpdate | backend/src/socket/chatSocket.js:74-80 | updating a room's summary keeps everyone's membership |

## Left out

- Network I/O, HTTP routing, JSON bodies and `console` logging are not modelled. Each handler is a function or method from its inputs to a status, a value or refusal reason, and the new store.
- Signing and checking of tokens is not modelled: `jwt.sign`, secrets and expiry times, and Firebase Admin's `verifyIdToken`. Verification is a parameter that maps a token to a verdict. The login response's session token is left to the caller.
- `getMe` and `logout` are not modelled. One copies the authenticated user's fields into the response, the other always answers 200; neither reads or changes state.
- `populate` is not modelled beyond the fields a handler reads. In the chat and admin listings it only decorates the returned documents. The rate limiter, the routes file and the frontend are not part of this model.
- Concurrency is not modelled. Each handler and socket event runs as one atomic step, although the source awaits several store calls in sequence.
- Unexpected store failures are not modelled: lost connections, CastErrors for malformed ids, and request fields of the wrong JavaScript type (a non-string `department`, say). Their handlers' catch-all 500 is therefore not modelled either.
- `parseInt` is not modelled. Page, limit, height, participant count and suspension days arrive already parsed, so text such as "abc" for `days` (which the source turns into an invalid date and a 500) is out of scope.
- Text.ToLower: `toLowerCase` maps only ASCII letters in this model. Full Unicode case mapping is not modelled.
- Fresh ids and a clock that only moves forward are assumptions: each creating handler requires an id no document of that collection has. Timestamps are milliseconds, with creation time equal to the store's current time.
- `readBy` and `isRead` of messages are stored as created; no handler changes them.
- The socket layer is left out below the room level: socket.io's own per-connection rooms, the `error` event's message text, and the ordering of events within the network.
- Upload internals are not modelled: the uploads directory, deleting files on failure or on a new profile image, multer's streaming order beyond "first refusal wins", and Windows path separators. `AcceptFiles` takes the fresh ids as a parameter.
- AuthController.Login: its own contract states a success only as "200 and no user removed". The exact outcome is stated by `ReturningUser` (a returning user's record is updated) and `FirstLogin` (a new account is appended and shown). The login response's token is not modelled.
- Text.Utf16Prefix: a string holding a lone surrogate cannot be represented, since a Dafny character is a Unicode scalar value. When `slice` cuts between the two halves of a surrogate pair, the source keeps the lone high half, and the model drops it (one code unit shorter). Text that arrives with a lone surrogate (a JSON escape can carry one) is out of scope too.
- ChatSocket.StoredContent: cuts at 2000 code units with `Utf16Prefix`, so a surrogate pair straddling the cut is dropped whole.
- ReportController.DraftReport: cuts the detail at 500 code units with `Utf16Prefix`, so a surrogate pair straddling the cut is dropped whole.
- UserController.SentFieldsNormalised: cuts the bio at 300 code units with `Utf16Prefix`, so a surrogate pair straddling the cut is dropped whole.
- AuthMiddleware.BearerToken: a header of just "Bearer " yields the empty token, which `jwt.verify` always rejects; the verification parameter is left free on it.
- ChatController.GetMessages: the returned messages are not populated with sender details.
