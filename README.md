# LinkedIn-clone REST API: a verified model of its handlers

This project models the request handlers of a LinkedIn-style REST backend
(Express and Mongoose). The backend has users and profiles, a connection graph
of directed requests, a post feed with privacy and likes, comments, one-to-one
messaging and job postings with applications. It also has four input
validators.

The database is modelled as one in-memory store, the class `Store.Db`:

- It holds one sequence per collection, in storage order.
- It holds a counter, `nextId`, from which new documents take their identifiers.
- `Db.Valid()` gathers the facts every handler keeps:
  - identifiers are distinct and already issued;
  - nobody is connected to themself;
  - a conversation is between two different users, and there is one per pair;
  - every `lastMessage` pointer names a message of its own conversation;
  - each post's `comments` list agrees with the comment documents;
  - no user applies to a job twice;
  - a user has at most one profile.

How the handlers are modelled:

- A handler that writes to the database is a method on the store. It states the whole new state and the outcome: `Ok`, `NotFound`, `Unauthorized`, `BadRequest`, or `Failed` for a validation or database error.
- A read-only handler is a function.
- A database query is a filter over a sequence.
- A sort is a stable insertion sort. Its contract is sortedness plus the same multiset of documents.
- Pagination follows the handlers' own arithmetic: a default for missing or zero values, `startIndex = (page - 1) * limit`, MongoDB's skip and limit, and the `next`/`prev` descriptor.

The modules follow the source files:

- `Common` and `Seqs` hold outcomes, pagination and sequence helpers.
- `PostModel` and `JobModel` mirror models/Post.js and models/Job.js.
- `Records` holds the documents whose schemas are not part of this model.
- `Store` holds the store.
- `ConnectionController`, `PostController`, `CommentController`, `MessageController`, `JobController` and `UserController` mirror the six controllers.
- `Validators` mirrors utils/validators.js.

## Model

| member | source | states |
|---|---|---|
| Common.Window | controllers/postController.js:36-41 | Skip then limit: the page is a contiguous slice of the sorted list starting at the skip, at most abs(limit) long (0 means no limit); empty past the end |
| Common.Paged | controllers/postController.js:11-14 | Defaults page 1 and limit 10; a negative start index is a database error (None); otherwise the window and the descriptor |
| Common.PrevIffLaterPage | controllers/postController.js:62-67 | With a positive limit, `prev` is present exactly when page > 1 |
| Common.NextIffMoreThanPage | controllers/postController.js:55-60 | For page, limit >= 1, `next` is present exactly when more than page*limit documents are counted |
| Common.PagedWindow | controllers/postController.js:36-41 | For page, limit >= 1 the page exists, holds at most limit documents, and its i-th document is the one at position (page - 1) * limit + i |
| Common.OrDefaultNeverZero | controllers/postController.js:11-12 | A defaulted page or limit is never 0 |
| Seqs.SortDesc | controllers/postController.js:39 | Newest-first sort: the result is sorted by the key, descending, and is a permutation of the input |
| Seqs.PagedFrom | controllers/postController.js:39-41 | A page cut from a sorted list is sorted and holds only documents of the list |
| PostModel.ParsePrivacy | models/Post.js:38-42 | A string parses exactly when it is the name of a privacy, and then to that privacy |
| PostModel.PrivacyRoundTrip | models/Post.js:38-42 | Parsing a privacy's name gives that privacy back |
| PostModel.NewPost | models/Post.js:3-51 | Creation fails exactly when text is missing or empty or the privacy is outside the enum; otherwise the new post has the caller as author, no likes or comments, privacy defaulting to public, and both timestamps now |
| JobModel.EnumNamesRoundTrip | models/Job.js:21-36 | Parsing an employment type's or experience level's name gives that value back |
| JobModel.NewJob | models/Job.js:3-83 | Creation fails exactly when a required field is missing or empty or an enum value is invalid; otherwise the job carries the body's title, description, location, enum values, skills, salary bounds and expiry, no applicants, active by default, currency USD by default, created now |
| ConnectionController.AcceptedRecords | controllers/connectionController.js:10-15 | The records the query finds are the accepted ones with the caller at either end, each as often as it is stored |
| ConnectionController.GetConnections | controllers/connectionController.js:7-39 | One entry per record the query finds, in the order found: entry i shows record i's id, the user at the other end and its date; an entry is listed exactly when an accepted record involving the caller gives it |
| ConnectionController.ConnectedIds | controllers/postController.js:18-30 | A user is a connection exactly when an accepted record joins them to the caller, in either direction |
| ConnectionController.Other | controllers/connectionController.js:18-22 | For a record between two different users that involves the caller, the other end is never the caller and is an end of the record |
| ConnectionController.AcceptConnectsBothWays | controllers/connectionController.js:111-112 | After acceptance each end is among the other's connections |
| ConnectionController.SendConnectionRequest | controllers/connectionController.js:44-91 | Self is BadRequest, an unknown user NotFound, any existing record in either direction BadRequest; otherwise exactly one pending record caller to target is appended |
| ConnectionController.RequestKeepsOneRecordPerPair | controllers/connectionController.js:63-75 | A request the handler lets through keeps at most one record per pair |
| ConnectionController.StatusChangeKeepsLink | controllers/connectionController.js:63-68 | Changing a status never unlinks a pair, so a rejected pair can never send a new request |
| ConnectionController.FindPendingFor | controllers/connectionController.js:98-102 | Finds a record only when it has that id, the caller as recipient, and status pending |
| ConnectionController.Respond | controllers/connectionController.js:96-151 | Only the recipient of a pending record can answer it, otherwise NotFound; the answer changes only that record's status |
| ConnectionController.AcceptConnectionRequest | controllers/connectionController.js:96-121 | Respond with accepted |
| ConnectionController.RejectConnectionRequest | controllers/connectionController.js:126-151 | Respond with rejected |
| ConnectionController.FindAcceptedFor | controllers/connectionController.js:158-162 | Finds a record only when it has that id, is accepted and involves the caller |
| ConnectionController.RemoveConnection | controllers/connectionController.js:156-180 | Either end may delete an accepted record; pending, rejected or foreign records are NotFound; only that record goes |
| ConnectionController.EligibleUsers | controllers/connectionController.js:187-207 | The users the `$nin` query finds: every stored user other than the caller and anyone sharing a record of any status with the caller, each as often as it is stored |
| ConnectionController.GetConnectionSuggestions | controllers/connectionController.js:185-217 | The first min(10, eligible) users the query finds, in storage order, so no user more often than stored; never the caller or anyone sharing a record with the caller; when fewer than 10 come back, every eligible user is among them |
| ConnectionController.ConnectedNeverSelf | controllers/connectionController.js:46-51 | In a store without self-records nobody is their own connection |
| PostController.Visible | controllers/postController.js:26-37 | The feed filter: the author is the caller or one of the caller's connections, or the post is public |
| PostController.FeedOrder | controllers/postController.js:18-39 | Sorted newest first, and a permutation of the visible posts: each post by the caller, by a connection, or public occurs as often as it is stored, and no other post occurs |
| PostController.GetPosts | controllers/postController.js:8-78 | A negative start index is an error; otherwise the page is the window of `FeedOrder` starting at (page - 1) * limit, so at most abs(limit) visible posts, newest first; the descriptor counts every stored post, not only the visible ones |
| PostController.ConnectionsPrivatePostsShown | controllers/postController.js:35-38 | A connection's private post is in the caller's feed |
| PostController.NextPageWithNothingVisible | controllers/postController.js:15 | A feed with nothing visible can still announce a next page, because the total counts every post |
| PostController.PostsBy | controllers/postController.js:292-294 | Each post by the user occurs as often as it is stored, and no other post occurs |
| PostController.GetUserPosts | controllers/postController.js:275-334 | NotFound for an unknown user; otherwise the page is the window, starting at (page - 1) * limit, of that user's posts sorted newest first, with the descriptor counting that user's posts |
| PostController.CreatePost | controllers/postController.js:115-128 | A valid body appends the new post authored by the caller; an invalid one is Failed and nothing changes |
| PostController.ApplyPostPatch | controllers/postController.js:152-155 | The update validators refuse an empty text or an unknown privacy; otherwise only the named fields change, and the updated time stays as it was |
| PostController.UpdatePost | controllers/postController.js:133-164 | NotFound for a missing post, Unauthorized for anyone but its author, both leaving the store unchanged; otherwise the patched post replaces it |
| PostController.DeletePost | controllers/postController.js:169-197 | NotFound, then Unauthorized, both leaving the store unchanged; otherwise only the post is removed and its comments stay |
| PostController.Unliked | controllers/postController.js:257-259 | Removes every like by the user and keeps the others |
| PostController.UnlikedKeepsOrder | controllers/postController.js:257-259 | The remaining likes keep their order: unliking keeps or drops each like on its own and distributes over concatenation |
| PostController.UnlikeUndoesLike | controllers/postController.js:221-259 | Unliking right after a like restores the exact list |
| PostController.LikePost | controllers/postController.js:202-232 | NotFound, or BadRequest if already liked; otherwise one like by the caller goes at the front |
| PostController.UnlikePost | controllers/postController.js:237-270 | NotFound, or BadRequest if not liked; otherwise the caller's likes are removed |
| CommentController.CommentsOn | controllers/commentController.js:18-20 | Each comment of the post occurs as often as it is stored, and no other comment occurs |
| CommentController.GetComments | controllers/commentController.js:7-30 | NotFound exactly when the post is missing; otherwise the post's comments, each exactly once, newest first |
| CommentController.AddComment | controllers/commentController.js:35-63 | NotFound for a missing post; otherwise a comment by the caller is appended and its id is appended to the post's list, keeping the two in step |
| CommentController.CommentsInSyncAdd | controllers/commentController.js:46-54 | Adding a comment and listing it on its post keeps the post lists in step with the comments |
| CommentController.UpdateComment | controllers/commentController.js:68-103 | NotFound, then Unauthorized for anyone but the author; otherwise only the text changes |
| CommentController.WithoutComment | controllers/commentController.js:131-134 | Removes the id from the list and keeps the other ids |
| CommentController.WithoutCommentKeepsOrder | controllers/commentController.js:131-134 | The other ids keep their order: removal keeps or drops each entry on its own and distributes over concatenation |
| CommentController.DeleteKeepsSync | controllers/commentController.js:127-136 | Deleting a comment and detaching it from its parent keeps the post lists in step |
| CommentController.DeleteComment | controllers/commentController.js:108-145 | NotFound, then Unauthorized; otherwise the comment is removed and its id leaves the parent post's list, when the post still exists |
| MessageController.ConversationOrder | controllers/messageController.js:10-13 | The caller's conversations sorted most recently updated first; each occurs as often as it is stored, and no other conversation occurs |
| MessageController.GetConversations | controllers/messageController.js:8-39 | One view per conversation of `ConversationOrder`, in that order, each showing its other participant |
| MessageController.ListedOtherIsSomeoneElse | controllers/messageController.js:19-21 | The participant shown is never the caller |
| MessageController.Thread | controllers/messageController.js:59-63 | The conversation's messages, each exactly once, oldest first |
| MessageController.MarkRead | controllers/messageController.js:66-73 | Unread messages of the conversation sent by someone else become read; nothing else changes |
| MessageController.MarkReadIdempotent | controllers/messageController.js:66-73 | Reading a thread twice marks nothing more |
| MessageController.GetMessages | controllers/messageController.js:44-84 | NotFound unless the caller takes part; otherwise the reply is the thread as it was before the call, and the messages are marked read |
| MessageController.SendMessage | controllers/messageController.js:89-141 | Self is BadRequest, an unknown receiver NotFound; otherwise the message goes into the pair's conversation, which is created only if none exists, and becomes its last message |
| MessageController.OneConversationPerPair | controllers/messageController.js:108-117 | In a valid store two conversations between the same pair are the same conversation, so the lookup a send makes finds the only one |
| MessageController.Newest | controllers/messageController.js:170-172 | A newest message of the conversation, when it has any |
| MessageController.Repointed | controllers/messageController.js:168-181 | Only the deleted message's conversation is repointed, and only when it pointed at that message: to the newest remaining message, or unset when none remains |
| MessageController.PointerSetWhileMessagesRemain | controllers/messageController.js:169 | A conversation that holds a message has its pointer set, so the handler's string conversion never meets an unset pointer |
| MessageController.DeleteKeepsConversations | controllers/messageController.js:165-181 | After deletion every pointer still names a message of its conversation, and none names the deleted message |
| MessageController.DeleteMessage | controllers/messageController.js:146-190 | NotFound, then Unauthorized for anyone but the sender; otherwise only that message goes, the conversation is repointed, and no pointer names it |
| JobController.BuildQuery | controllers/jobController.js:15-33 | The query selects exactly the active jobs meeting every non-empty filter of the request |
| JobController.Search | controllers/jobController.js:35-37 | Each stored job the query selects occurs as often as it is stored, and no other job occurs |
| JobController.BadPattern | controllers/jobController.js:19-25 | A given title or location that the database cannot compile as a regular expression |
| JobController.GetJobs | controllers/jobController.js:7-69 | The handler fails exactly when a given title or location pattern does not compile or the start index is negative; otherwise the page is the window, starting at (page - 1) * limit, of the selected jobs sorted newest first, so at most abs(limit) wanted jobs; the descriptor counts the jobs the query selects |
| JobController.CreateJob | controllers/jobController.js:101-114 | A valid body appends a job whose company is the caller; an invalid one is Failed and nothing changes |
| JobController.ApplyJobPatch | controllers/jobController.js:136-139 | The validators refuse an empty required text or an unknown enum value; otherwise only the named fields change and the applicants stay |
| JobController.UpdateJob | controllers/jobController.js:119-150 | NotFound, then Unauthorized for anyone but the company; otherwise the patched job replaces it |
| JobController.DeleteJob | controllers/jobController.js:155-183 | NotFound, then Unauthorized; otherwise only that job is removed |
| JobController.HasApplied | controllers/jobController.js:208 | True exactly when some applicant entry is by the user |
| JobController.ApplyKeepsApplicantsUnique | controllers/jobController.js:208-220 | If no user appears twice before an apply, none does after |
| JobController.ApplyForJob | controllers/jobController.js:188-231 | NotFound, then BadRequest for an inactive job or an existing application; otherwise exactly one entry (caller, applied, now) is appended and nothing else changes |
| JobController.ApplicationOf | controllers/jobController.js:252-268 | The job's summary with the status and date of the caller's first entry, never another applicant's |
| JobController.ListingJobs | controllers/jobController.js:247-249 | Each job whose applicants list the user occurs as often as it is stored, and no other job occurs |
| JobController.Applications | controllers/jobController.js:247-268 | One line per job of `ListingJobs`, in the same order: the i-th line is that job's `ApplicationOf` |
| JobController.ApplicationsMembers | controllers/jobController.js:247-268 | A line is listed exactly when it is the line of a stored job that lists the user |
| JobController.ApplicationsOnePerJob | controllers/jobController.js:247-268 | With distinct job ids no two lines name the same job |
| JobController.GetUserApplications | controllers/jobController.js:236-278 | Unauthorized exactly when the path names someone else; otherwise one line per job listing the caller, in query order, holding exactly the lines of those jobs |
| UserController.GetUsers | controllers/userController.js:8-45 | The page is the slice of the users in storage order that starts at the start index and holds abs(limit) users, or every remaining user when fewer remain or the limit is 0; `next` iff page*limit < number of users; `prev` iff the start index is positive |
| UserController.ApplyUserPatch | controllers/userController.js:83-86 | Only the fields the body names change; the id stays |
| UserController.UpdateUser | controllers/userController.js:73-102 | Unauthorized whenever the path names someone else, before any lookup; then NotFound; otherwise the patched user replaces it |
| UserController.DeleteUser | controllers/userController.js:107-126 | Unauthorized exactly when the path names someone else; otherwise Ok whether or not the user existed, and exactly the users with other ids remain |
| UserController.UpdateUserProfile | controllers/userController.js:157-192 | Unauthorized for someone else; an existing profile gets the body's fields merged over its own; otherwise a profile for the path's user is created when the schema accepts it; the user then has a profile |
| UserController.CreateKeepsOneProfilePerUser | controllers/userController.js:171-183 | The upsert never gives a user a second profile |
| UserController.FollowUser | controllers/userController.js:197-242 | Self is BadRequest, an unknown user NotFound, a record in the same direction BadRequest; otherwise one pending record caller to target is appended |
| UserController.FollowMayDuplicatePair | controllers/userController.js:216-233 | After the target has asked the caller, a follow is let through and the pair then has two records |
| UserController.UnfollowUser | controllers/userController.js:247-276 | Self is BadRequest, no record from caller to target NotFound; otherwise the first such record is deleted whatever its status |
| UserController.UnfollowEndsConnection | controllers/userController.js:257-260 | Where a pair has one record, unfollowing along it ends the connection even if it was accepted |
| Validators.ValidPassword | utils/validators.js:8-11 | The strings the password expression accepts: eight or more characters, no line terminator, with a digit, a lower-case and an upper-case ASCII letter |
| Validators.PasswordExamples | utils/validators.js:8-11 | Accepts a password of 8+ characters with a digit, a lower- and an upper-case letter; refuses one missing the upper case and one that is too short |
| Validators.ValidName | utils/validators.js:14-17 | The strings the name expression accepts: two or more characters, each an ASCII letter or white space |
| Validators.NameRejectsDigitsAndPunctuation | utils/validators.js:14-17 | A digit or ASCII punctuation anywhere rejects a name |
| Validators.ValidEmail | utils/validators.js:2-5 | The strings the e-mail expression accepts: word runs, an '@', word runs, and a final dot with two or three word characters |
| Validators.EmailOneAt | utils/validators.js:2-5 | An accepted address starts with a word character and has exactly one '@' |
| Validators.EmailSeparators | utils/validators.js:2-5 | Every '.' and '-' of an accepted address has a word character on both sides |
| Validators.EmailTopLevelDomain | utils/validators.js:2-5 | An accepted address ends with a '.' followed by two or three word characters |
| Validators.ValidURL | utils/validators.js:20-23 | The strings the URL expression accepts: an optional http or https scheme, a host, a dot, a top-level part and a path |
| Validators.UrlSchemeForced | utils/validators.js:20-23 | The part after an optional http or https scheme is itself well formed |
| Validators.UrlRejections | utils/validators.js:20-23 | An accepted URL has no '?' or '#', no ':' except the scheme's, and no upper-case letter at the start of its host |

## Left out

- HTTP plumbing is not modelled: routing, status codes other than the outcome, JSON bodies, `populate` projections and error middleware. The `auth` middleware is represented only by the caller's id.
- `parseInt` on query strings is not modelled: a page or limit arrives as an optional integer, with None standing for a value that does not parse.
- Common.Paged: page and limit are unbounded integers, not JavaScript doubles. A digit string beyond the double range parses to Infinity, which `|| default` keeps, and a skip that is infinite or at least 2^63 is refused by the database, so the handler fails; the model returns an empty page instead. The same holds in the post, job and user listings. Likewise salary bounds are integers, while the Job schema's `Number` also accepts fractions.
- Clocks are parameters: every `Date.now()` is a `now` argument.
- Concurrency is not modelled: each handler runs atomically on the store.
- utils/sendEmail.js, config/config.js and app.js are not part of this model.
- The read-by-id handlers getPost, getJob, getUser and getUserProfile are not modelled. They are plain lookups; their lookups are the `Find…` functions.
- The User, Connection, Comment, Conversation and Message schemas are not part of the source. Their fields come from the controllers, and their validation is not modelled: a comment's or message's text is stored as given.
- The Profile schema is reduced to a string-to-string field map. Creating a profile takes its validation as a parameter, `accepts`.
- The case-insensitive regular-expression filters of getJobs are parameters: `matches` for the test and `compiles` for whether the database accepts the pattern.
- PostModel.NewPost: a create body cannot carry `likes`, `comments`, `createdAt` or `updatedAt`, which `Post.create` would store as sent. The store invariants (`CommentsInSync` in particular) therefore assume that create bodies carry none of them.
- JobModel.NewJob: a create body cannot carry `applicants` or `createdAt`, which `Job.create` would store as sent. The invariant that no user applies twice (`AllApplicantsUnique`) therefore assumes that create bodies carry no applicants.
- ConnectionController.GetConnections: does not model `populate` on a deleted user. A record whose requester was deleted makes the handler throw and fail; the model still lists it, with the stored id.
- MessageController.GetConversations: does not model `populate` on a deleted user. `populate` drops a deleted participant, so the code shows no other participant; the model shows the stored id.
- Update bodies are typed patches (`PostPatch`, `JobPatch`, `UserPatch`). Unknown fields and fields the schema would cast are not modelled.
- JobController.ApplyJobPatch: does not model updates of `salary`, `company` or `applicants` through the body.
- PostController.ApplyPostPatch: does not model a body that overwrites `user`, `likes`, `comments` or the timestamps, which the code's unfiltered update would allow.
- UserController.ApplyUserPatch: does not model the User schema's validators, because that schema is not part of the source.
- MongoDB's order among documents with equal sort keys is not specified. The model keeps storage order (a stable sort), which is one of the orders MongoDB may return.
- Strings are sequences of Unicode scalar values, not UTF-16 code units. The validators' character classes are those of JavaScript regular expressions without the `u` flag.
- Validators.ValidPassword: counts characters, not UTF-16 code units. A character outside the Basic Multilingual Plane is two code units to the JavaScript expression's length check but one character here, so a short password made long by such characters (for example "Aa1" followed by three emoji) is accepted by the code and refused by the model. The same difference holds for the other validators' lengths.
- The feed's pagination `total` counts all posts, not only the visible ones. That is what the code does, and the model follows the code rather than the description of a visible-post total.
- Deleting a post leaves its comments in the collection, and deleting a user removes no posts, connections or profiles, exactly as in the code.
- Deleting a message whose conversation has an unset pointer would throw in the handler. The model shows that a valid store never reaches that state (`PointerSetWhileMessagesRemain`), so that path is not modelled.
