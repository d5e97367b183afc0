# Blog application: authentication, ownership and paging, modelled in Dafny

This project models the decision logic of a small blogging application: an
Express backend over a relational store and an Angular frontend that lists
posts in a paged grid. Four parts are modelled.

- **Post handlers** (`post_controller.dfy`, module `PostController`). The post
  table is the class `PostStore`. It holds a map from post id to
  `Post(title, content, authorId, createdAt)` and an autoincrement counter.
  `Create`, `Update` and `Delete` run the handlers' checks in the source's
  order: 401 without an identity, 400 without a title or content (not for
  delete), 404 for a missing post, 403 for somebody else's post. Only when
  every check passes do they change the map. The ownership guard (`Guard`) is
  shared by update and delete. The listing (`ListPosts`) is a pure function.
  It computes the page, the skip and take, and `ceil(total / 5)`. It orders
  posts newest first (`ByRecency`, a sort proved to list every post exactly
  once).
- **Registration and login** (`auth_controller.dfy`, module `AuthController`).
  The user table is the class `UserStore`, a map from email to
  `User(id, email, pwHash)`. The password-hashing library and the token
  library are values of function type (`Hasher`, `Tokens`). What the handlers
  rely on from them is stated as predicates, and the lemmas assume those.
  `Sound` says a password matches every digest made from it. `Consistent` says
  a signed token verifies to its id and contains no space. `Login` is a pure
  function of the table, so it cannot change the table.
- **Bearer-token middleware** (`auth_middleware.dfy`, module
  `AuthMiddleware`). This is the `Authorization: Bearer <token>` header of
  section 2.1 of RFC 6750. The case-sensitive prefix test and the JavaScript
  `split(' ')[1]` are modelled exactly: `Split` and `Join` are proved inverse.
  `BearerToken` is proved to be the text after `"Bearer "` up to the next
  space. `Decide` is the decision. `Authenticate` is the step on a request
  object (`Exchange`): it either sends 401 or attaches `{ id }` and calls
  `next` once.
- **Home view** (`home_component.dfy`, module `HomeComponent`). This covers
  the excerpt formatter, the 0-based to 1-based page conversion and the
  odd-row rule. The class `HomeView` holds the grid rows and the record count
  that `loadPosts` assigns. The backend's answer is a parameter `fetch`.

`http.dfy` (module `Http`) holds the shared values: optional request fields,
responses (`Success(status, value)` or `Failure(status, message)`) and the
JavaScript truthiness tests the handlers apply.

Randomness, the clock and the network are parameters. These are the hash salt
(`salt`), the creation time (`now`), the token library (`Tokens`) and the
backend's answer to the frontend (`fetch`).

Behaviours of the code worth stating:
- A registration whose insert fails on a uniqueness race is answered 500 by
  the code's `catch`.
- `register` answers `{ message, user: { id, email } }`.
- The token is `split(' ')[1]`: the text after the prefix up to the next
  space. So `"Bearer  x"` (two spaces) yields the empty token. RFC 6750 allows
  one or more spaces and, through RFC 7235, a case-insensitive scheme name. The
  code accepts exactly `"Bearer "`.
- Update and delete succeed with 200; create succeeds with 201.

## Model

| member | source | states |
|---|---|---|
| `Http.Filled` | code/backend/src/controllers/post.controller.ts:10 | a title, content, email or password is falsy exactly when it is absent or the empty string (also post.controller.ts:69, auth.controller.ts:10 and 43) |
| `Http.TruthyId` | code/backend/src/controllers/post.controller.ts:9 | a caller's id is falsy exactly when it is absent or 0 (also post.controller.ts:68 and 104) |
| `PostController.Guard` | code/backend/src/controllers/post.controller.ts:79-85 | allows exactly when the post exists and the caller owns it; a missing post gives 404 whoever asks, before any 403 |
| `PostController.PostStore.Create` | code/backend/src/controllers/post.controller.ts:5-23 | 401 for a falsy id before 400 for a missing title or content; either way the table is unchanged; otherwise exactly one new post under a fresh id, owned by the caller, with the given title and content, answered 201 |
| `PostController.PostStore.Update` | code/backend/src/controllers/post.controller.ts:63-93 | checks 401, 400, then 404, then 403; every rejection leaves the table unchanged; success replaces only title and content of the target; keys, owners and creation times of all posts are unchanged |
| `PostController.PostStore.Delete` | code/backend/src/controllers/post.controller.ts:100-123 | checks 401, then 404, then 403, body not validated; rejections leave the table unchanged; success removes exactly the target post and every other post is untouched |
| `PostController.CreateThenDelete` | code/backend/src/controllers/post.controller.ts:100-123 | an author deleting the post they just created gets both requests accepted and the table back as it was |
| `PostController.PageNumber` | code/backend/src/controllers/post.controller.ts:31 | the page is the parsed query value, or 1 when it is NaN or 0; never 0 |
| `PostController.TotalPages` | code/backend/src/controllers/post.controller.ts:49 | the least page count whose pages hold all posts, i.e. `ceil(total / 5)` |
| `PostController.ByRecency` | code/backend/src/controllers/post.controller.ts:36-39 | lists every post of the table exactly once, each with its own row, strictly newest first |
| `PostController.NewestExists` | code/backend/src/controllers/post.controller.ts:39 | a non-empty table has a newest post |
| `PostController.ListPosts` | code/backend/src/controllers/post.controller.ts:30-56 | 500 exactly when the page is below 1; otherwise 200, echoes the page, reports the total and `ceil(total / 5)`, and at most 5 posts of the table in newest-first order; which posts a page shows is stated by `PagesTileTheListing` and `PageIsEmptyPastTheLast` |
| `PostController.Window` | code/backend/src/controllers/post.controller.ts:37-38 | the page holds the posts from position `skip` on, as many as remain up to 5, in the listing's order |
| `PostController.PagesTileTheListing` | code/backend/src/controllers/post.controller.ts:37-38 | the post at position k of the newest-first order is shown on page k / 5 + 1 at position k % 5 |
| `PostController.PageIsEmptyPastTheLast` | code/backend/src/controllers/post.controller.ts:37-49 | a page from 1 up shows some post exactly when it is at most `totalPages` |
| `AuthController.UserStore.Register` | code/backend/src/controllers/auth.controller.ts:6-33 | 400 for a missing field, 400 "User already exists." for a taken email whatever the password, the table unchanged in both; otherwise exactly one new row holding the hash of the password, answered 201 with only id and email; keeps emails unique, ids unique and only digests stored |
| `AuthController.Login` | code/backend/src/controllers/auth.controller.ts:40-71 | 400 for a missing field; succeeds exactly when the email is known and the password matches its digest, answering the token for the user's id with id and email; every failure is 400; reads the table only |
| `AuthController.UnknownEmailLooksLikeWrongPassword` | code/backend/src/controllers/auth.controller.ts:50-58 | login with an unknown email and login with a wrong password give the identical response |
| `AuthController.LoginAfterRegister` | code/backend/src/controllers/auth.controller.ts:54-66 | with a sound hash, logging in with the registered password succeeds with a token for the registered id |
| `AuthController.RegisterThenLogin` | code/backend/src/controllers/auth.controller.ts:22-66 | registering a fresh email and logging in with it both succeed and the login names the registered user |
| `AuthMiddleware.StartsWith` | code/backend/src/middleware/auth.middleware.ts:13 | a header starts with the prefix exactly when it is the prefix followed by the rest of the header (case-sensitive) |
| `AuthMiddleware.Split` | code/backend/src/middleware/auth.middleware.ts:17 | `split` yields at least one piece and no piece contains the separator |
| `AuthMiddleware.JoinSplit` | code/backend/src/middleware/auth.middleware.ts:17 | joining the pieces of a split gives back the string |
| `AuthMiddleware.SplitJoin` | code/backend/src/middleware/auth.middleware.ts:17 | splitting joined separator-free pieces gives back the pieces |
| `AuthMiddleware.UpTo` | code/backend/src/middleware/auth.middleware.ts:17 | the longest separator-free prefix of a string |
| `AuthMiddleware.SplitHead` | code/backend/src/middleware/auth.middleware.ts:17 | the first piece of a split is the text before the first separator |
| `AuthMiddleware.BearerToken` | code/backend/src/middleware/auth.middleware.ts:17 | for a header starting with "Bearer ", `split(' ')[1]` is the text after the prefix up to the next space |
| `AuthMiddleware.BearerTokenExamples` | code/backend/src/middleware/auth.middleware.ts:17 | "Bearer " gives "", "Bearer a b" gives "a", "Bearer  a" gives "" |
| `AuthMiddleware.Decide` | code/backend/src/middleware/auth.middleware.ts:10-25 | "Token missing." exactly when the header is absent or lacks the case-sensitive prefix; accepts exactly when verify succeeds on the extracted token, with the decoded id; any other outcome is "Token invalid." |
| `AuthMiddleware.IssuedTokenIsAccepted` | code/backend/src/middleware/auth.middleware.ts:17-21 | an unexpired token the login handler issued, sent as "Bearer <token>", is accepted for the id it was issued for |
| `AuthMiddleware.Authenticate` | code/backend/src/middleware/auth.middleware.ts:10-25 | on rejection sends 401 with the message and neither attaches an identity nor calls next; on acceptance attaches the id and calls next once, sending nothing |
| `AuthMiddleware.AuthenticateRequest` | code/backend/src/middleware/auth.middleware.ts:10-26 | on a fresh request exactly one outcome occurs: a 401 response, or a single next call with an identity |
| `HomeComponent.Excerpt` | code/frontend/src/app/components/home/home.component.ts:83-88 | at most 150 characters: unchanged; longer: 153 characters ending in "..."; always starts with the first min(150, length) characters of the content |
| `HomeComponent.ExcerptIsIdempotent` | code/frontend/src/app/components/home/home.component.ts:85-87 | formatting an excerpt again changes nothing |
| `HomeComponent.RequestedPage` | code/frontend/src/app/components/home/home.component.ts:137 | a non-negative paginator page p asks for p + 1, an absent page for 1; never below 1 for those |
| `HomeComponent.RowIsOdd` | code/frontend/src/app/components/home/home.component.ts:113 | a row gets the odd class exactly when its index is odd |
| `HomeComponent.RowsAlternate` | code/frontend/src/app/components/home/home.component.ts:113 | of two neighbouring rows exactly one is odd, and the striping repeats every two rows |
| `HomeComponent.PaginatorPageShowsItsWindow` | code/frontend/src/app/components/home/home.component.ts:136-139 | paginator page k asks the backend for page k + 1, which answers with the posts from position 5k of the newest-first order |
| `HomeComponent.HomeView.LoadPosts` | code/frontend/src/app/components/home/home.component.ts:126-134 | requests the page; on an answer shows its posts and total, on an error changes nothing |
| `HomeComponent.HomeView.OnPageChange` | code/frontend/src/app/components/home/home.component.ts:136-139 | loads the converted page |
| `HomeComponent.HomeView.OnGridReady` | code/frontend/src/app/components/home/home.component.ts:141-144 | loads page 1 |
| `HomeComponent.OpenHome` | code/frontend/src/app/components/home/home.component.ts:141-144 | against the backend, a ready grid shows the first five posts of the newest-first order and the total count |

## Left out

- Store failures: the `catch` branches answering 500 are not modelled. Only the listing's negative skip is, because the store rejects it. Neither are `async`/`await` and `Promise.all`.
- The registration race is not modelled. A second insert of the same email between the lookup and the insert is concurrency inside the store.
- The hashing library's algorithm and salting are left out. So are the JSON Web Token encoding, signing, expiry and clock. They are foreign library code and appear only as the `Hasher` and `Tokens` parameters.
- The signing secret and its environment-variable default are process configuration.
- `parseInt` is represented by its result: `None` stands for NaN. A non-numeric post id in the update and delete routes is not modelled (the store would reject a NaN id). Request bodies whose title, content, email or password are not strings are not modelled.
- The listing's `include` of the author's id and email would need a join with the user table, so it is not modelled.
- The order of posts with equal `createdAt` is fixed as descending id. The store promises no order for ties.
- AuthController.UserStore.Register: "the plaintext is never stored" is stated as "every stored password is an output of the hash". That the hash of a password differs from the password is a property of the library and cannot be stated here.
- HomeComponent.Excerpt: lengths count Unicode scalar values. JavaScript counts UTF-16 code units, so the two differ on characters outside the Basic Multilingual Plane.
- Locale-dependent date formatting is not modelled. Neither are `sizeColumnsToFit`, row-click and create-post navigation, or the other Angular views and services.
- The Express routing and the inline get-by-id handler are not modelled. The latter is a bare lookup.
- `totalRecords` is modelled as the reported total. The paginator widget's own page arithmetic is library code.
- AuthController.UnknownEmailLooksLikeWrongPassword: only the responses are compared. Timing is outside the model; the code runs the password comparison only for a known email, so response time can tell the two failures apart.
- HomeComponent.HomeView.LoadPosts: the answer is applied in the same step as the request. In the code it is applied later, in the `subscribe` callback, and earlier requests are not cancelled, so answers to overlapping requests arriving out of order (the grid then showing the older page) are not captured. The same holds for `OnPageChange` and `OnGridReady`, which call it.
- AuthMiddleware.Decide: only tokens whose verified payload carries a numeric `id` are modelled. A token signed with the secret whose payload has no `id` (or a non-numeric one) is passed on by the code with `{ id: undefined }`, and the post handlers then answer 401 (or 403, or 500 on create); the model's `verify` cannot express such a payload. The same holds for `Authenticate`.
- PostController.ListPosts: the page is an unbounded integer. In the code it is a JavaScript number: a `parseInt` result of `Infinity`, or a page whose skip exceeds the store's 64-bit integer range, is rejected by the store and answered 500, while the model answers such large pages with an empty window.
