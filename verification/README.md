# Hyntelo blog — a Dafny model

A model of the Hyntelo blog: an ASP.NET server that stores users, posts and
comments in an in-memory Entity Framework database, serves paged listings of
posts and of a post's comments, and issues a JWT to the one admin account; and
an Angular client that pages through posts and comments, shows author
initials, and keeps the login session in cookies and local storage.

The store is three tables, each a sequence of rows in insertion order with
unique keys (`Data.Table`, `Data.BlogDbContext`). The generic repository's
writes (`Add`, `Update`, `Delete`) change a table in place. A key of 0 is the
unset key of a new entity: the store replaces it with the key generator's next
value, which the write receives as a parameter and which is never a stored key. The queries are
pure functions over the tables, built from LINQ operators modelled once in
`Linq`:
- `Where`;
- `Skip`/`Take` with .NET's clamping of negative and oversized counts;
- a stable descending sort;
- the inner join, which keeps outer order, then the order of the inner matches.

An exception the server code can throw becomes a `Failure` of a `Result`:
- `FirstAsync` on an empty query;
- `Substring` past the end of a body;
- a duplicate key on insert;
- an update of a missing row;
- a missing signing secret.

The controllers are functions that choose an `ActionResult` from what the
repositories return. `CreatePost` and `AddComment` are methods, because they
write through the unit of work. The client components and services are
classes whose methods update their fields. HTTP requests and router
navigations are recorded in append-only logs. An answer from the server is
passed to the handler method that receives it.

C# `int` is an unbounded integer everywhere. The listings compute the skip
count `(page - 1) * pageSize` exactly; the 32-bit wrap-around of the server's
arithmetic appears only in `Linq.PageAsWritten`, which records the discrepancy
(see Findings). Times are
seconds given as parameters. Strings are `seq<char>`. Upper-casing, and the
case-insensitive matching of configuration keys, cover ASCII letters only.

## Model

| member | source | states |
|---|---|---|
| Linq.Where | Hyntelo-challenge.Server/Repositories/Repositoy.cs:38-41 | the filtered rows are stored rows that pass the predicate, every stored row that passes is kept, each as many times as it is stored and no more |
| Linq.WhereConcat | Hyntelo-challenge.Server/Repositories/Repositoy.cs:38-41 | filtering a concatenation is the concatenation of the filtered parts, so the rows keep their stored order |
| Linq.WhereSingle | Hyntelo-challenge.Server/Repositories/Repositoy.cs:38-41 | a single row is kept exactly when it passes |
| Linq.WhereCount | Hyntelo-challenge.Server/Repositories/Repositoy.cs:38-43 | the number of filtered rows is the number of stored positions whose row passes |
| Linq.WhereFirst | Hyntelo-challenge.Server/Repositories/UserRepository.cs:29 | the first filtered row is the first stored row that passes |
| Linq.WhereAll | Hyntelo-challenge.Server/Repositories/Repositoy.cs:38-41 | a predicate every row passes filters nothing out |
| Linq.Skip | Hyntelo-challenge.Server/Repositories/Repositoy.cs:45 | the rows after the first n, n clamped to the length: a negative count skips nothing, an oversized one everything |
| Linq.Take | Hyntelo-challenge.Server/Repositories/Repositoy.cs:46 | a prefix of the rows, n long when n is in range; a negative count takes nothing, an oversized one everything |
| Linq.Page | Hyntelo-challenge.Server/Repositories/Repositoy.cs:44-47 | for any page and size, element k of the page is row lo + k, lo being the clamped skip count, and the length is the clamped page size |
| Linq.PageIsSlice | Hyntelo-challenge.Server/Repositories/Repositoy.cs:44-47 | for page ≥ 1 and pageSize ≥ 1 the page is the contiguous slice starting at (page-1)*pageSize, at most pageSize long, element k being row (page-1)*pageSize+k |
| Linq.PagePastEnd | Hyntelo-challenge.Server/Repositories/Repositoy.cs:44-47 | a page starting at or after the last row is empty |
| Linq.PageBounded | Hyntelo-challenge.Server/Repositories/Repositoy.cs:44-47 | for any page and size, including zero and negative ones, the page holds at most max(pageSize, 0) rows, no more than the sequence, all taken from it |
| Linq.PageAtOrBeforeFirst | Hyntelo-challenge.Server/Repositories/Repositoy.cs:45 | a page number of 1 or less gives the first pageSize rows, because a negative skip count skips nothing |
| Linq.SortDescending | Hyntelo-challenge.Server/Repositories/PostRepository.cs:27 | `orderby … descending` returns a permutation of its input whose keys never increase |
| Linq.SortStrict | Hyntelo-challenge.Server/Repositories/PostRepository.cs:27 | with unique keys the sorted rows have strictly decreasing keys |
| Linq.SliceStrict | Hyntelo-challenge.Server/Repositories/PostRepository.cs:38 | a slice of a strictly decreasing sequence is strictly decreasing |
| Linq.Matching | Hyntelo-challenge.Server/Repositories/PostRepository.cs:26 | the join partners of a key are exactly the stored rows with that key |
| Linq.MatchingAtMostOne | Hyntelo-challenge.Server/Repositories/PostRepository.cs:26 | with unique user ids a row has at most one join partner |
| Linq.Join | Hyntelo-challenge.Server/Repositories/PostRepository.cs:25-26 | every joined pair holds a stored outer row and a stored inner row with equal keys |
| Linq.JoinMember | Hyntelo-challenge.Server/Repositories/PostRepository.cs:26 | a pair is in the inner join exactly when both halves are stored and their keys agree, so rows without a partner are dropped |
| Linq.JoinKeepsOuter | Hyntelo-challenge.Server/Repositories/CommentRepositoy.cs:27 | when every row has exactly one partner the join keeps every outer row, in order |
| Linq.WrapInt32 | Hyntelo-challenge.Server/Repositories/Repositoy.cs:45 | C#'s unchecked `int` arithmetic: the result is a 32-bit value congruent to its input modulo 2^32, and equals the input when that already fits |
| Linq.PageAsWrittenAgrees | Hyntelo-challenge.Server/Repositories/Repositoy.cs:45 | when (page-1)*pageSize fits in 32 bits the server's slice equals the exact one |
| Linq.PageAsWrittenOverflows | Hyntelo-challenge.Server/Repositories/Repositoy.cs:45 | page 2147483647 of size 2 wraps to skip count -4 and returns the first two rows, where the exact page is empty for every sequence shorter than 4294967292 rows |
| GenericRepository.GetAllWhere | Hyntelo-challenge.Server/Repositories/Repositoy.cs:34-56 | the total counts the rows the filter admits, taken before slicing; the items are that page of them, every one stored and admitted; page number and size are echoed |
| GenericRepository.GetAll | Hyntelo-challenge.Server/Repositories/Repositoy.cs:29-32 | the unfiltered listing is the filtered one with no filter, and counts every row |
| GenericRepository.GetAllIsUnfiltered | Hyntelo-challenge.Server/Repositories/Repositoy.cs:29-41 | a filter that every row passes gives the same listing as no filter |
| GenericRepository.TotalCountIgnoresPaging | Hyntelo-challenge.Server/Repositories/Repositoy.cs:43 | the total does not depend on page or pageSize |
| GenericRepository.TotalCountCountsMatches | Hyntelo-challenge.Server/Repositories/Repositoy.cs:38-43 | the total is the number of stored positions whose row the filter admits, every position without a filter |
| GenericRepository.IndexOfKey | Hyntelo-challenge.Server/Repositories/Repositoy.cs:58-61 | the first position holding the key, or none when no row has it |
| GenericRepository.GetById | Hyntelo-challenge.Server/Repositories/Repositoy.cs:58-61 | `FindAsync` returns a stored row with that key, and `null` exactly when none has it |
| GenericRepository.GetByIdFindsStored | Hyntelo-challenge.Server/Repositories/Repositoy.cs:58-61 | with unique keys a stored row is found under its own key |
| GenericRepository.Repository.Add | Hyntelo-challenge.Server/Repositories/Repositoy.cs:63-68 | an entity with key 0 is stored under the generated key and always succeeds; an entity with a key of its own is stored as given; the stored entity is returned and appended after every previous row; a key already stored fails with nothing changed; keys stay unique |
| GenericRepository.Repository.Update | Hyntelo-challenge.Server/Repositories/Repositoy.cs:70-74 | an entity with key 0 is inserted under the generated key; otherwise the stored row with the entity's key is replaced in place, other rows unchanged, and a missing key fails with nothing changed |
| GenericRepository.Repository.Delete | Hyntelo-challenge.Server/Repositories/Repositoy.cs:76-83 | a missing id changes nothing; otherwise exactly the row with that id is removed and the others keep their order |
| PostRepository.Preview | Hyntelo-challenge.Server/Repositories/PostRepository.cs:33 | a body of at most 50 characters is kept; a body of 500 or more becomes its first 500 characters and "..."; lengths 51 to 499 throw |
| PostRepository.JoinedPosts | Hyntelo-challenge.Server/Repositories/PostRepository.cs:25-26 | every joined row pairs a stored post with a stored user whose id is the post's `UserId` |
| PostRepository.OrderedPosts | Hyntelo-challenge.Server/Repositories/PostRepository.cs:27 | the joined rows, every one kept, with post ids never increasing |
| PostRepository.ListItem | Hyntelo-challenge.Server/Repositories/PostRepository.cs:28-35 | copies id, user id and title, carries the author's name and previews the body; fails exactly when the preview throws |
| PostRepository.ListItems | Hyntelo-challenge.Server/Repositories/PostRepository.cs:28-35 | the page's rows are projected in order, and the projection fails exactly when some row's preview throws |
| PostRepository.GetAll | Hyntelo-challenge.Server/Repositories/PostRepository.cs:23-47 | the total counts the joined rows; the items are the requested page of the joined rows in descending id order, copying id, user id and title, previewing the body and carrying the author's name; it fails exactly when a row on that page has a body of 51 to 499 characters |
| PostRepository.JoinedPostIdsUnique | Hyntelo-challenge.Server/Repositories/PostRepository.cs:25-26 | with unique post and user ids the joined rows have unique post ids |
| PostRepository.OrderedPostsMember | Hyntelo-challenge.Server/Repositories/PostRepository.cs:25-27 | a row is in the ordered listing exactly when it pairs a stored post with the stored user its `UserId` names |
| PostRepository.GetAllOrderedById | Hyntelo-challenge.Server/Repositories/PostRepository.cs:27-38 | listed posts come in strictly decreasing id order |
| PostRepository.GetAllItemsJoinAuthors | Hyntelo-challenge.Server/Repositories/PostRepository.cs:28-35 | every listed item is a stored post whose author is stored, with the post's id, user id and title and the author's name |
| PostRepository.GetAllDropsOrphans | Hyntelo-challenge.Server/Repositories/PostRepository.cs:26-37 | a post whose `UserId` names no user is neither listed nor counted |
| PostRepository.GetById | Hyntelo-challenge.Server/Repositories/PostRepository.cs:49-65 | succeeds exactly when a post with that id joins a stored user, returning its full body and the author's name; otherwise `FirstAsync` throws and `null` is never returned |
| CommentRepository.ToDto | Hyntelo-challenge.Server/Repositories/CommentRepositoy.cs:29-36 | the item copies id, post id, user id and body and carries the author's name |
| CommentRepository.GetAll | Hyntelo-challenge.Server/Repositories/CommentRepositoy.cs:23-51 | the total counts the post's comments that join a user; the items are the requested page of those rows in store order; page number and size are echoed |
| CommentRepository.GetAllItemsBelongToPost | Hyntelo-challenge.Server/Repositories/CommentRepositoy.cs:25-36 | every listed comment has the requested post id, is stored, and carries its stored author's name |
| CommentRepository.GetAllDropsOrphans | Hyntelo-challenge.Server/Repositories/CommentRepositoy.cs:27-38 | a comment whose author is not stored is neither listed nor counted |
| CommentRepository.GetAllListsStoreOrder | Hyntelo-challenge.Server/Repositories/CommentRepositoy.cs:28-42 | with unique user ids and every author stored, the total is the number of the post's comments, and item k is comment k of the store-order page, projected with its stored author |
| UserRepository.GetByUserName | Hyntelo-challenge.Server/Repositories/UserRepository.cs:23-30 | succeeds exactly when some user has that name, returning the first such user in store order; otherwise `FirstAsync` throws |
| UserRepository.GetByUserNameFindsStored | Hyntelo-challenge.Server/Repositories/UserRepository.cs:23-30 | with unique user names the stored user of that name is returned |
| UnitOfWork.UnitOfWork.constructor | Hyntelo-challenge.Server/Repositories/UnitOfWork.cs:21-24 | starts with no repositories, not disposed, over the given context |
| UnitOfWork.UnitOfWork.PostRepository | Hyntelo-challenge.Server/Repositories/UnitOfWork.cs:26-33 | the first read creates a repository over the context's posts, every later read returns that instance, the others are untouched |
| UnitOfWork.UnitOfWork.CommentRepository | Hyntelo-challenge.Server/Repositories/UnitOfWork.cs:35-42 | the same memoisation for the comments repository, independently |
| UnitOfWork.UnitOfWork.UserRepository | Hyntelo-challenge.Server/Repositories/UnitOfWork.cs:44-50 | the same memoisation for the users repository, independently |
| UnitOfWork.UnitOfWork.DisposeCore | Hyntelo-challenge.Server/Repositories/UnitOfWork.cs:60-67 | disposes the context only on the first call with `disposing` set; `Dispose(false)` never does; every call sets the disposed flag; the context is disposed at most once |
| UnitOfWork.UnitOfWork.Dispose | Hyntelo-challenge.Server/Repositories/UnitOfWork.cs:69-73 | the first call disposes the context and a second does nothing further |
| PostsController.PostResponse | Hyntelo-challenge.Server/Controllers/PostsContoller.cs:62-68 | 404 without a message exactly when the repository returned `null`, otherwise 200 with exactly its value |
| PostsController.CommentsResponse | Hyntelo-challenge.Server/Controllers/PostsContoller.cs:113-129 | 404 naming the post id exactly when the post was not found, otherwise 200 with the comment page |
| PostsController.CommentResponse | Hyntelo-challenge.Server/Controllers/PostsContoller.cs:147-159 | 404 naming the comment id exactly when it was not found, checked first; 400 exactly when it belongs to another post; 200 with the comment otherwise |
| PostsController.NotFoundMessagesNameTheId | Hyntelo-challenge.Server/Controllers/PostsContoller.cs:121-152 | the 404 messages for different ids differ |
| PostsController.GetPosts | Hyntelo-challenge.Server/Controllers/PostsContoller.cs:42-47 | 200 with the repository page unchanged, page 1 and size 10 by default |
| PostsController.GetPost | Hyntelo-challenge.Server/Controllers/PostsContoller.cs:62-68 | through the post repository: 200 carrying exactly the repository's DTO for that id (the stored post's fields with its stored author's name) when the post joins an author, an exception otherwise |
| PostsController.GetComments | Hyntelo-challenge.Server/Controllers/PostsContoller.cs:113-129 | through the repositories: the comment page of exactly (postId, page, pageSize) when the post is found, the post lookup's exception otherwise |
| PostsController.GetComment | Hyntelo-challenge.Server/Controllers/PostsContoller.cs:147-159 | 200 only with a stored comment of that id on that post; 404 exactly when no comment has that id; 400 only when the comment with that id is on another post |
| PostsController.GetPostNeverNotFound | Hyntelo-challenge.Server/Controllers/PostsContoller.cs:64-66 | with the real repository the `null` branch is never taken: a missing post is an exception, never a 404 |
| PostsController.GetCommentsOfMissingPost | Hyntelo-challenge.Server/Controllers/PostsContoller.cs:118-122 | for a missing post the comments are never consulted, and the result is the post lookup's exception rather than the 404 |
| PostsController.GetCommentDecided | Hyntelo-challenge.Server/Controllers/PostsContoller.cs:147-159 | with unique comment ids a stored comment yields 200 on its own post and 400 on any other |
| PostsController.PostsController.CreatePost | Hyntelo-challenge.Server/Controllers/PostsContoller.cs:92-96 | a post sent without an id is stored under the generated key and always answers 201; the answer names `GetPost` with the stored post's id and the stored post; a duplicate explicit key throws with nothing stored |
| PostsController.PostsController.AddComment | Hyntelo-challenge.Server/Controllers/PostsContoller.cs:183-187 | stores the comment as sent, under the generated key when it has no id, without checking the post or setting its post id, and answers 201 naming `GetPost` with the route's post id and the stored comment |
| AuthController.Setting | Hyntelo-challenge.Server/Controllers/AuthController.cs:43-48 | `_configuration[name]` is the value of the last entry whose key matches the name ignoring case, and `null` exactly when none matches |
| AuthController.SettingIgnoresCase | Hyntelo-challenge.Server/Controllers/AuthController.cs:43-48 | names that differ only in letter case read the same setting |
| AuthController.Login | Hyntelo-challenge.Server/Controllers/AuthController.cs:29-58 | only username "admin" with password "password" can get a token, any other pair gets 401 "Invalid credentials"; a token has exactly the claims sub = the decimal text of the first stored user named by the login, and username = the submitted name, expires 30 minutes after issue, and takes issuer and audience verbatim from `Jwt:Issuer` and `Jwt:Audience` |
| AuthController.LoginIgnoresStoredPasswords | Hyntelo-challenge.Server/Controllers/AuthController.cs:32-34 | the credential check uses literals: for any other pair the result depends on neither the users table nor the configuration |
| AuthController.LoginSubjectIsAdminId | Hyntelo-challenge.Server/Controllers/AuthController.cs:34-39 | the sub claim is the decimal text of the id of the first stored user named admin, and parses back to that id |
| AuthController.LoginWithAdminCredentials | Hyntelo-challenge.Server/Controllers/AuthController.cs:32-54 | with the admin pair: no stored admin throws, a missing secret throws, otherwise a token is issued |
| Text.NatDigitsRoundTrip | Hyntelo-challenge.Server/Controllers/AuthController.cs:39 | the decimal digits of a natural number read back as that number |
| Text.DecimalRoundTrip | Hyntelo-challenge.Server/Controllers/AuthController.cs:39 | `int.ToString()` parses back to the same integer |
| Text.DecimalStringInjective | Hyntelo-challenge.Server/Controllers/AuthController.cs:39 | different integers print differently |
| Text.ToUpper | hyntelo-challenge.client/src/app/post-details/post-details.component.ts:86 | ASCII lower-case letters map to upper case and every other character is kept |
| Seeding.SeedPosts | Hyntelo-challenge.Server/Program.cs:110-120 | fifty posts, element k being post k+1 |
| Seeding.BuildSeedPosts | Hyntelo-challenge.Server/Program.cs:110-120 | the loop builds exactly the fifty seed posts, post k+1 at position k |
| Seeding.Seed | Hyntelo-challenge.Server/Program.cs:103-125 | a store with posts is left unchanged; otherwise exactly the admin user is appended and the fifty posts stored, in one save that fails with nothing stored when user id 1 exists |
| Seeding.SeedPostsUnique | Hyntelo-challenge.Server/Program.cs:111-115 | seeded ids are 1 to 50 in increasing order |
| Seeding.SeedPostShape | Hyntelo-challenge.Server/Program.cs:115-118 | post i belongs to user 1, is titled "Post i", and its body begins "This is the content of post number i." |
| Seeding.SeedBodiesPreview | Hyntelo-challenge.Server/Program.cs:118 | every seeded body is at least 500 characters, so its preview does not throw |
| Seeding.SeedPostsPreview | Hyntelo-challenge.Server/Program.cs:118 | no seeded post makes the listing's preview throw |
| Seeding.SeededJoinKeepsAll | Hyntelo-challenge.Server/Program.cs:108-116 | with the admin stored, the post join drops no seeded post |
| Seeding.SeededListing | Hyntelo-challenge.Server/Program.cs:103-125 | every page of the seeded listing is produced without an exception and counts fifty posts |
| Seeding.SeededAdminLogsIn | Hyntelo-challenge.Server/Program.cs:108 | with the seeded admin stored ahead of any other user named admin and a secret configured, the admin can log in and the token's subject reads back as 1 |
| PageList.PageCount | hyntelo-challenge.client/src/app/post-list/post-list.component.ts:74 | `Math.ceil(total / pageSize)` as a length: zero for no rows, else the n with (n-1)*pageSize < total ≤ n*pageSize |
| PageList.PageNumbers | hyntelo-challenge.client/src/app/post-list/post-list.component.ts:74 | the buttons 1 to n |
| PageList.PageCountIsLeast | hyntelo-challenge.client/src/app/post-details/post-details.component.ts:56 | the page count is the least number of pages that hold the total |
| PageList.PagesCoverListing | hyntelo-challenge.client/src/app/post-list/post-list.component.ts:74 | against the server's slicing of the same rows, every button names a non-empty page and the page after the last is empty |
| Pagination.PaginationComponent.GoToPage | hyntelo-challenge.client/src/app/pagination/pagination.component.ts:24-29 | a page from 1 to the number of buttons becomes current and is emitted once; any other page changes and emits nothing; the current page stays in range |
| Pagination.PaginationComponent.GoToPreviousPage | hyntelo-challenge.client/src/app/pagination/pagination.component.ts:18-22 | from a page above 1 and at most one past the last button, one page back and emitted; from anywhere else nothing changes; the range is kept |
| Pagination.PaginationComponent.GoToNextPage | hyntelo-challenge.client/src/app/pagination/pagination.component.ts:31-35 | from a page of at least 0 and below the last button, one page on and emitted; from anywhere else nothing changes; the range is kept |
| PostDetails.Split | hyntelo-challenge.client/src/app/post-details/post-details.component.ts:85 | `split(' ')` gives at least one part and no part contains a space |
| PostDetails.SplitJoin | hyntelo-challenge.client/src/app/post-details/post-details.component.ts:85 | joining the parts with spaces gives the string back |
| PostDetails.FirstUpper | hyntelo-challenge.client/src/app/post-details/post-details.component.ts:86 | an empty part contributes nothing, any other its upper-cased first character |
| PostDetails.InitialsMatchScan | hyntelo-challenge.client/src/app/post-details/post-details.component.ts:85-87 | the split-and-map initials equal a left-to-right scan taking the first character of each run of non-spaces |
| PostDetails.GetInitials | hyntelo-challenge.client/src/app/post-details/post-details.component.ts:81-88 | the initials never contain a space, and an empty name has none |
| PostDetails.GetInitialsIsScan | hyntelo-challenge.client/src/app/post-details/post-details.component.ts:81-88 | `getInitials` is one upper-cased letter per word, in order, with repeated spaces contributing nothing, and "" for "" |
| PostDetails.InitialsPerWord | hyntelo-challenge.client/src/app/post-details/post-details.component.ts:86-87 | one initial per non-empty part |
| PostDetails.PostDetailsComponent.GetComments | hyntelo-challenge.client/src/app/post-details/post-details.component.ts:52-53 | issues the request for that post and page, changing nothing shown |
| PostDetails.PostDetailsComponent.OnCommentsLoaded | hyntelo-challenge.client/src/app/post-details/post-details.component.ts:52-59 | shows the page's comments and total, the buttons for that total at four per page, and the requested page |
| PostDetails.PostDetailsComponent.OnCommentAdded | hyntelo-challenge.client/src/app/post-details/post-details.component.ts:68-78 | appends the comment, adds one to the total, recomputes the buttons, and moves on one page and asks for it exactly when more than four comments are shown |
| PostDetails.AddedCommentPages | hyntelo-challenge.client/src/app/post-details/post-details.component.ts:72 | one more comment adds a button exactly when the old total filled its last page |
| PostList.PostListComponent.GetPosts | hyntelo-challenge.client/src/app/post-list/post-list.component.ts:68-70 | shows the loading state and issues the request for (page, pageSize) |
| PostList.PostListComponent.NgOnInit | hyntelo-challenge.client/src/app/post-list/post-list.component.ts:49-51 | requests page 1 of four posts and shows loading; nothing else changes |
| PostList.PostListComponent.OnPageChange | hyntelo-challenge.client/src/app/post-list/post-list.component.ts:91-93 | requests exactly the given page, of four posts, and shows loading; nothing else changes |
| PostList.PostListComponent.OnPostsLoaded | hyntelo-challenge.client/src/app/post-list/post-list.component.ts:71-76 | shows the items, ends loading, sets the buttons for the total and the requested page |
| PostList.PostListComponent.OnPostsFailed | hyntelo-challenge.client/src/app/post-list/post-list.component.ts:77-81 | sets 'Failed to load posts', ends loading and goes to /login, keeping the posts and current page |
| AuthService.CookieValue | hyntelo-challenge.client/src/app/services/auth.service.ts:26 | an absent cookie reads as the empty string |
| AuthService.AuthService.constructor | hyntelo-challenge.client/src/app/services/auth.service.ts:25-31 | a non-empty authToken cookie restores a logged-in session with that token; otherwise logged out with no token |
| AuthService.AuthService.Authenticate | hyntelo-challenge.client/src/app/services/auth.service.ts:33-55 | on success stores the cookie, logs in with the response token and yields true; on failure yields false and changes nothing; logged-in agrees with the token |
| AuthService.AuthService.Logout | hyntelo-challenge.client/src/app/services/auth.service.ts:90-96 | deletes both cookies, logs out, clears the token and goes to /login |
| AuthService.AuthService.GetAuthHeaders | hyntelo-challenge.client/src/app/services/auth.service.ts:99-102 | one header, Authorization = "Bearer " + token, exactly when the token is non-empty; none otherwise |
| AuthService.AuthService.GetUserInfo | hyntelo-challenge.client/src/app/services/auth.service.ts:71-88 | nothing without a token or when decoding fails; otherwise the userId claim when it is non-empty, else sub, and the username claim |
| AuthService.AuthService.GetUsername | hyntelo-challenge.client/src/app/services/auth.service.ts:65-69 | the user name of the user info, or `null` |
| AuthService.ClaimValue | hyntelo-challenge.client/src/app/services/auth.service.ts:76-77 | the value of the last claim of a kind, as `JSON.parse` keeps the last duplicate member, present exactly when such a claim exists |
| AuthService.ClaimValueLastWins | hyntelo-challenge.client/src/app/services/auth.service.ts:76-77 | a claim appended after the others decides its kind's value |
| AuthService.PayloadOf | hyntelo-challenge.client/src/app/services/auth.service.ts:76-77 | each of userId, sub and username is the value of the last claim of that kind, and absent when there is none |
| AuthService.UserIdFallsBackToSub | hyntelo-challenge.client/src/app/services/auth.service.ts:77 | a token carrying only sub and username, as the server issues, yields sub as the user id |
| LoginService.LoginService.Authenticate | hyntelo-challenge.client/src/app/services/login.service.ts:10-18 | true exactly for 'admin'/'password', which sets the flag so the user reads as logged in; otherwise storage is untouched |
| LoginService.LoginService.IsUserLoggedIn | hyntelo-challenge.client/src/app/services/login.service.ts:20-22 | an absent flag reads as logged out, and a stored one as logged in exactly when it is 'true' |
| LoginService.LoginService.Logout | hyntelo-challenge.client/src/app/services/login.service.ts:24-28 | removes the flag so the user reads as logged out; a second call changes nothing |
| LoginService.OnlyExactTrueCounts | hyntelo-challenge.client/src/app/services/login.service.ts:20-22 | only a stored value of exactly 'true' reads as logged in |
| AppComponent.StartupNavigation | hyntelo-challenge.client/src/app/app.component.ts:17-26 | /login unless rememberMe is exactly 'true' and the token is non-empty; with both, /posts only from url '/', and no navigation from any other url; exactly one of the three |
| AppComponent.StartupAfterLogout | hyntelo-challenge.client/src/app/app.component.ts:17-26 | a start-up that follows `logout()` on the same service goes to /login whatever the url |

## Left out

- Key generation: the generator's next value is a parameter of the writes, required only to be a key that is not stored. The order in which the in-memory provider hands out keys is not modelled.
- `SaveAsync` and change tracking: every write is committed by the call that makes it. `UnitOfWork.SaveAsync` has no effect of its own in the model.
- Use after disposal: the model counts context disposals but does not make a disposed context refuse queries. `GC.SuppressFinalize` is not modelled.
- JWT signing and serialisation, and the key-length checks of the token library: the token is the record of its claims, issuer, audience, expiry and secret. `jwtDecode` is a parameter of `GetUserInfo`.
- The JWT bearer middleware and `[Authorize]` enforcement, Swagger, dependency injection and the rest of the server set-up in Program.cs.
- Times: `DateTime.Now` is a parameter in seconds. Cookie options (expiry, secure, same-site) are not modelled.
- `localStorage` being absent: the browser is assumed to provide it.
- The HTTP services, `onNewPost`, `getPost`, `ngOnInit` and `onPageChanged` of the details page, forms, notifications and routing modules. Requests and navigations are logged, and answers are delivered to the handler methods.
- Text: upper-casing, and the case-insensitive matching of configuration keys in `AuthController.Setting`, cover ASCII letters only. String lengths count `char`s, not UTF-16 units.
- PostList.PostListComponent.OnPostsLoaded: requires a positive page size. Every caller in the component passes 4, and JavaScript's division by zero is not modelled.
- PageList.PageCount: requires a positive page size for the same reason.
- Integer widths: ids, counts and page numbers are unbounded integers. The listings use the exact skip count; the server's 32-bit wrap-around of it is modelled only by `Linq.PageAsWritten` (see Findings).

## Findings

| source | as written | input that shows it | evidently intended | confidence | as-written member | corrected member |
|---|---|---|---|---|---|---|
| Hyntelo-challenge.Server/Repositories/Repositoy.cs:45 (the same expression is at PostRepository.cs:38 and CommentRepositoy.cs:40) | `(page - 1) * pageSize` is unchecked 32-bit `int` arithmetic, so a large page wraps to a negative skip count, and `Skip` of a negative count skips nothing | page = 2147483647, pageSize = 2 over two or more rows: the skip count wraps to -4 and the first two rows come back | a page past the end of the rows is empty | not executed | Linq.PageAsWrittenOverflows (over Linq.PageAsWritten) | Linq.PagePastEnd (over Linq.Page, used by every listing in the model) |
