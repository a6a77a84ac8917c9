# Chat backend controllers, modelled in Dafny

This project models the two request-handler files of a small chat
application's Express backend:

- `backend/src/controllers/auth.controller.js` covers signup, login, logout,
  profile update and the session check.
- `backend/src/controllers/message.controller.js` covers the sidebar's user
  list, the conversation between two users, and sending a message.

The document store is replaced by an in-memory `Store.Database`:

- users are a sequence of records;
- messages are an append-only sequence;
- one counter hands out document ids.

Its queries become sequence filters, look-ups, an append and an
update-by-id. The public projection `PublicProfile` stands for the
`-password` selection.

The handlers that write to the store are methods with `modifies db`:
`Signup`, `UpdateProfile` and `SendMessage`. For every outcome, each states
the whole new store: both sequences and the id counter. The handlers that only read are functions of the store's
sequences, so they cannot change it: `Login`, `Logout`, `CheckAuth`,
`GetUsersForSidebar` and `GetMessagesForUser`.

Every external call is a field of `Externals.Env`:

- bcrypt becomes an abstract `hash` plus a `matches` relation;
- the JWT signer becomes `sign`;
- the store's I/O calls are steps (the image upload is none, because its
  outcome changes no reply);
- any step named in `faults` throws, and the handler's catch block answers
  500 "Server error".

A request-body field is a JavaScript string or `undefined`. "Missing" means
JavaScript-falsy: undefined or `""`.

Validation chains are stated twice and proved equal:

- as the early-return chain the source writes (`SignupCheck`, `LoginCheck`,
  `ProfileCheck`);
- as an ordered list of rules whose first broken one is reported
  (`FirstBroken`).

The code's behaviour is modelled as written, including where it departs from
what its authors evidently meant:

- `updateProfile` with a data-URL `profilePic` always answers 500 and writes
  nothing. The upload is still invoked with the payload cut from the data
  URL. Then the handler assigns to the `const` binding `profilePic`
  (lines 96 and 110), which throws. `UpdateProfile` returns the payload handed
  to the upload as `uploaded`. It never claims the upload's URL reaches the
  store.
- `sendMessage` with an image always answers 500 and writes nothing. It calls
  `uploadImage`, which the file never imports (lines 1-2 and 52).
- `updateProfile` has no 404. A caller whose document is gone makes
  `findByIdAndUpdate` return null, and reading `_id` of null is a 500.
- Login's two 400 messages differ. "User does not exist" and "Invalid
  credentials" tell an unknown email from a wrong password.
- Password validation looks for the space character `" "` only, not for
  other whitespace.

Two behaviours differ from what a reader might expect of such an API; the
model follows the code:

- The duplicate-email signup answers 400, not 409.
- The conversation is returned in store order, not sorted by creation time.

## Model

| member | source | states |
|---|---|---|
| Js.Missing | backend/src/controllers/auth.controller.js:9-11 | the definition of JavaScript falsiness for a string field: undefined or ""; it has no contract of its own |
| Js.Includes | backend/src/controllers/auth.controller.js:17-20 | `includes` holds only when the searched string is no longer than the string searched |
| Js.StartsWith | backend/src/controllers/auth.controller.js:106 | `startsWith` holds exactly when the prefix occurs at index 0, and then `includes` of the prefix holds too |
| Js.IncludesChar | backend/src/controllers/auth.controller.js:17-20 | `includes` of a one-character string is membership of that character, so "@" and " " checks are character tests |
| Js.SplitPop | backend/src/controllers/auth.controller.js:107 | `split(sep).pop()`, scanning left to right and cutting after each separator: the last piece is never longer than the string |
| Js.NoCutKeepsWhole | backend/src/controllers/auth.controller.js:107 | when the split makes no cut, the last piece is the whole string and the string holds no separator |
| Js.SplitPopHasNoSeparator | backend/src/controllers/auth.controller.js:107 | the last piece of `split(sep)` contains no separator |
| Js.SplitPopFollowsSeparator | backend/src/controllers/auth.controller.js:107 | the last piece of `split(sep)` is the whole string when `sep` does not occur, and otherwise directly follows an occurrence of `sep` |
| Js.SplitPopIsSuffix | backend/src/controllers/auth.controller.js:107 | the last piece of a split is a suffix of the string |
| Js.Base64Payload | backend/src/controllers/auth.controller.js:107 | the payload cut from a data URL is a suffix of it and holds no ";base64," |
| Js.Base64PayloadFollowsLastMarker | backend/src/controllers/auth.controller.js:106-108 | the base64 payload cut from a data URL is everything after the LAST ";base64,", or the whole string when the marker is absent |
| Store.Filter | backend/src/controllers/message.controller.js:26-31 | a `find` with a filter returns at most as many documents as the collection holds |
| Store.FilterCounts | backend/src/controllers/message.controller.js:26-31 | a matching document occurs in the result exactly as often as in the store, and a non-matching one never occurs |
| Store.FilterMembers | backend/src/controllers/message.controller.js:26-31 | the result holds exactly the stored documents the filter accepts |
| Store.FilterAppend | backend/src/controllers/message.controller.js:26-35 | filtering distributes over concatenation, so the query keeps the store's order |
| Store.FilterSameSelection | backend/src/controllers/message.controller.js:27-30 | two filters that agree on every stored document select the same sequence |
| Store.FilterKeepsNoDuplicates | backend/src/controllers/message.controller.js:26-31 | a store without repeated documents gives a result without repeated documents |
| Store.FindByEmail | backend/src/controllers/auth.controller.js:26-27 | `findOne({ email })` yields a stored user with that email, and null exactly when no user has it |
| Store.FindByEmailAfterAppend | backend/src/controllers/auth.controller.js:26-34 | after saving a user under a new email, `findOne` by that email finds that user |
| Store.FindByEmailUnique | backend/src/controllers/auth.controller.js:61-64 | with unique emails, `findOne` returns the one user with the email |
| Store.FindById | backend/src/controllers/auth.controller.js:113-117 | `findById` yields a stored user with that id, and null exactly when no user has it |
| Store.FindByIdUnique | backend/src/controllers/auth.controller.js:113-117 | with unique ids, `findById` returns the one user with the id |
| Store.PublicProfile | backend/src/controllers/message.controller.js:7-9 | the `-password` projection has exactly `_id`, `fullName`, `email`, `profilePic`, each holding that user's value, and never `password` |
| Store.Populate | backend/src/controllers/message.controller.js:32-33 | a populated reference is the referenced user's public projection (`-password`), or null exactly when that user is gone |
| Store.MessageDocument | backend/src/controllers/message.controller.js:56-66 | the saved message serialised as it stands: exactly `_id`, `senderId`, `image`, plus `receiverId` and `text` when stored, never `password`; the references are raw ids |
| Store.ViewPopulatesDocument | backend/src/controllers/message.controller.js:32-35 | populating changes only `senderId` and `receiverId`: the listed view has the document's keys and agrees with it on every other field |
| Store.DistinctIdsSeparateMessages | backend/src/controllers/message.controller.js:56-62 | in a store whose messages have distinct ids, two different stored messages have different ids |
| Store.DistinctIdsNoDuplicates | backend/src/controllers/message.controller.js:56-62 | a store whose messages have distinct ids holds no message twice |
| Store.MessageView | backend/src/controllers/message.controller.js:32-35 | a listed message has exactly `_id` (its own id), `senderId` and `image`, plus `receiverId` and `text` when stored, never `password`; `senderId` and `receiverId` hold the populated users, and the stored text and image are kept |
| Store.SetProfile | backend/src/controllers/auth.controller.js:113-117 | `findByIdAndUpdate` changes only the user with the id: new name and email, and new avatar only when one was given; id and password hash are kept |
| Store.SetProfileKeepsUsersBelow | backend/src/controllers/auth.controller.js:113-117 | the update keeps every user's id, so all ids stay below the store's counter |
| Store.SetProfileKeepsUsersValid | backend/src/controllers/auth.controller.js:113-117 | an update of an existing user to an email no other user holds keeps ids below the counter, ids unique and emails unique, and `findById` then returns the new name and email |
| Store.SetProfileKeepsUnique | backend/src/controllers/auth.controller.js:113-117 | an update whose email no other user holds keeps ids and emails unique |
| Store.Database.SaveUser | backend/src/controllers/auth.controller.js:32-34 | saving appends exactly one user under a fresh id; a taken email is refused by the unique index and nothing changes |
| Store.Database.FindByIdAndUpdate | backend/src/controllers/auth.controller.js:113-117 | null and no change when the id is unknown or the email is another user's; otherwise the updated user, and the store is `SetProfile` of the old one |
| Store.Database.SaveMessage | backend/src/controllers/message.controller.js:56-62 | saving appends exactly one message under a fresh id and leaves earlier messages and all users unchanged |
| Http.Reply | backend/src/controllers/auth.controller.js:10 | `res.status(s).json({ message })`: status `s`, a body whose only key is `message` holding the text, and no cookie |
| Http.ServerError | backend/src/controllers/auth.controller.js:45-48 | the reply of every catch block: 500, a body whose only key is `message` holding "Server error", and no cookie |
| Http.SessionCookie | backend/src/controllers/auth.controller.js:35 | the cookie `generateToken` sets is named `jwt`, holds the token and has a positive lifetime |
| Http.ApplyCookie | backend/src/controllers/auth.controller.js:87 | a cookie with `maxAge` 0 removes its name from the browser's jar; any other cookie sets it; other names are untouched |
| Http.ApplyCookies | backend/src/controllers/auth.controller.js:87 | after a response's cookies, the last cookie decides its name: present with its value, or absent when its `maxAge` is 0 |
| Http.ApplyCookiesKeepsUnmentioned | backend/src/controllers/auth.controller.js:87 | a name that none of the response's cookies mentions keeps its value, or stays absent |
| AuthController.FirstBroken | backend/src/controllers/auth.controller.js:9-24 | an ordered list of rules reports the message of the first broken rule, and nothing only when every rule holds |
| AuthController.SignupCheck | backend/src/controllers/auth.controller.js:9-24 | signup's checks run in a fixed order: missing field, then password shorter than 6, then no "@", then a space in the password. The first broken one decides the 400 message, and a request passes exactly when all hold |
| AuthController.LoginCheck | backend/src/controllers/auth.controller.js:53-60 | login checks, in order, for missing fields and then a space in the password; it has no length rule and no "@" rule |
| AuthController.ProfileCheck | backend/src/controllers/auth.controller.js:100-105 | profile update checks, in order, for a missing name or email and then for no "@"; the picture is not validated |
| AuthController.SignupCredentialsPassLoginCheck | backend/src/controllers/auth.controller.js:53-60 | any email and password signup accepts also pass login's checks |
| AuthController.LoginHasNoLengthOrEmailRule | backend/src/controllers/auth.controller.js:53-60 | a 3-character password with an email lacking "@" fails signup on length but passes login's checks |
| AuthController.SignupBody | backend/src/controllers/auth.controller.js:36-41 | the 201 body has exactly `_id`, `fullName`, `email` and `token`, holding the new user's id, name and email and the token, and no password |
| AuthController.LoginBody | backend/src/controllers/auth.controller.js:71-77 | the 200 body has exactly `_id`, `fullName`, `email`, `profilePic` and `token`, holding the user's values and the token, and no password |
| AuthController.TokenCookies | backend/src/controllers/auth.controller.js:35-40 | a successful signup or login sets two cookies, each the `jwt` session cookie holding the signed token with a seven-day life |
| AuthController.TokenCookiesSetSession | backend/src/controllers/auth.controller.js:35-40 | signup and login each call `generateToken` twice, so the session cookie is set twice; the jar still ends up with exactly that one session and its other cookies untouched |
| AuthController.Signup | backend/src/controllers/auth.controller.js:6-49 | field errors come first; then "User already exists" for a taken email; each rejection leaves the store unchanged. Success appends exactly one user whose stored password is the hash, answers 201 and sets the session cookie |
| AuthController.Login | backend/src/controllers/auth.controller.js:51-83 | answers 400 "User does not exist" exactly for an unknown email and 400 "Invalid credentials" exactly for a hash mismatch. 200 exactly when the password matches the found user's hash; failures set no cookie; no body has a password; a failing user query, password comparison or token signing answers 500 "Server error" with no cookie |
| AuthController.SignupThenLogin | backend/src/controllers/auth.controller.js:31-77 | once signup has appended a user with the hash of the password, login with that email and password answers 200 for that user and sets its session cookie |
| AuthController.Logout | backend/src/controllers/auth.controller.js:85-93 | always 200, setting cookie `jwt` to "" with `maxAge` 0 |
| AuthController.LogoutIdempotent | backend/src/controllers/auth.controller.js:85-89 | after logout no session cookie remains, whatever the jar held; a second logout leaves the jar as the first did, and other cookies survive |
| AuthController.CheckAuth | backend/src/controllers/auth.controller.js:130-146 | 401 exactly when no user is attached; otherwise 200 with exactly `_id`, `fullName`, `email`, `profilePic`, each holding that user's value, never the password |
| AuthController.IsDataUrl | backend/src/controllers/auth.controller.js:106 | the data-URL test holds exactly when a picture is given and starts with "data:image/"; its falsy guard adds nothing |
| AuthController.UpdateProfile | backend/src/controllers/auth.controller.js:95-128 | field errors first (400). A data-URL picture hands the payload after the last ";base64," to the upload, then answers 500 with nothing written. Any other picture is stored unchanged, or kept when absent. A vanished user, a taken email or a failed update gives 500 with nothing written |
| MessageController.OtherUsers | backend/src/controllers/message.controller.js:7 | the sidebar query holds exactly the users whose id differs from the caller's |
| MessageController.Profiles | backend/src/controllers/message.controller.js:7-10 | the listed users are sent as their public projections, one per user, in order; each carries its user's id and none carries a password |
| MessageController.NotUser | backend/src/controllers/message.controller.js:7 | the definition of the `$ne` filter: it keeps a user exactly when its id is not the caller's; it has no contract of its own, and `OtherUsers` states what the query returns |
| MessageController.SidebarShowsOthers | backend/src/controllers/message.controller.js:7-10 | the listing holds the projection of every user but the caller, and nothing else; no entry has a password |
| MessageController.GetUsersForSidebar | backend/src/controllers/message.controller.js:4-15 | 200 whose items are the projections of the other users, one per user in store order: every user but the caller and no one else; no entry has a password |
| MessageController.Between | backend/src/controllers/message.controller.js:27-30 | a message belongs to the pair when it has a receiver and its two ends are the pair, in either order |
| MessageController.InConversation | backend/src/controllers/message.controller.js:26-31 | the `$or` filter keeps a message exactly when its two ends are the pair, in either order |
| MessageController.ListingShowsConversation | backend/src/controllers/message.controller.js:26-35 | the listing holds the view of every message between the pair, and nothing else |
| MessageController.Conversation | backend/src/controllers/message.controller.js:26-31 | the conversation holds exactly the stored messages from me to the other user or from the other user to me |
| MessageController.ConversationSymmetric | backend/src/controllers/message.controller.js:27-30 | listing (a, b) and listing (b, a) return the same messages in the same order |
| MessageController.ConversationNoDuplicates | backend/src/controllers/message.controller.js:26-31 | a store that holds no message twice gives a conversation that lists no message twice; every valid store qualifies, by `Store.DistinctIdsNoDuplicates` |
| MessageController.ConversationKeepsStoreOrder | backend/src/controllers/message.controller.js:26-35 | messages stored earlier are listed earlier; no sort is applied |
| MessageController.ConversationAfterAppend | backend/src/controllers/message.controller.js:26-31 | an appended message comes last in its own conversation and does not appear in any other |
| MessageController.MessageViews | backend/src/controllers/message.controller.js:32-35 | each listed message is sent populated, one view per message, in order, keeping its id, its text (present exactly when stored) and its image |
| MessageController.GetMessagesForUser | backend/src/controllers/message.controller.js:17-40 | 400 "User ID is required" before any query when `userId` is missing. Otherwise 200 listing every message between the caller and that user and nothing else, as the views of the conversation in store order |
| MessageController.ListingNoDuplicates | backend/src/controllers/message.controller.js:26-35 | in a store whose message ids are distinct, no two listed messages carry the same `_id` |
| MessageController.SendMessage | backend/src/controllers/message.controller.js:42-71 | an image gives 500 with nothing written. Otherwise exactly one message is appended: sender is the caller whatever the body claims, receiver and text from the body, image null. Earlier messages are unchanged and the id counter moves on by one. Then 500 when the `populate` chain throws, otherwise 201 with the saved message, its references as raw ids |
| MessageController.SentMessageIsListed | backend/src/controllers/message.controller.js:56-66 | a text message appended from sender to receiver is the last item of the receiver's listing of that pair, with the same text and a null image |

## Left out

- Password hashing and comparison (bcryptjs) are modelled as an abstract `hash` function and a `matches` relation. `Externals.HashMatches` is bcrypt's one promise: a password matches its own hash. The salt and cost factor are not modelled.
- `lib/utils.js` (`generateToken`) is not part of this model. A token is `env.sign(id)`. Its cookie is named `jwt` and lives seven days. Signing options, expiry checks and the cookie's `httpOnly`, `sameSite` and `secure` flags are left out.
- `middleware/auth.middleware.js` (`protectRoute`) is not part of this model. Only its result is modelled: the caller's user record. The protected handlers other than `checkAuth` take that record as given. `updateProfile` reads `req.user._id` outside its `try` block, and `checkAuth` alone handles an absent user.
- `lib/cloudinary.js` (upload, delete, URL helpers) and the base64 decoding by `Buffer.from` are foreign. Only the string split that extracts the payload is modelled. The upload's outcome cannot change any reply, since every image branch ends in 500.
- The user and message schemas are not part of this model. Several assumptions follow:
  - new users start with avatar `""`;
  - `email` has a unique index, so updating to another user's email fails;
  - any schema rejection at save time is the `SaveDocument` fault;
  - emails are matched exactly, with no lower-casing;
  - `createdAt`, `updatedAt` and `__v` are not modelled, and neither is their serialisation.
- Mongoose query semantics are left out:
  - the query engine, `populate` internals and id casting are replaced by sequence operations;
  - a route id that does not cast is the `QueryMessages` fault;
  - request ids are already-parsed ids, with `None` for a missing or empty one;
  - an undefined `profilePic` leaves the stored avatar untouched, as Mongoose 7 and later drop undefined update fields. Earlier versions store null and reply with `profilePic: null`, which this model does not capture.
- The Mongoose version is not part of this model. The chained `message.populate(...).populate(...)` after the save (lines 63-65) populates nothing in any version. Where document `populate` returns a promise (Mongoose 6 and later), the second `.populate` throws, which is the `PopulateMessage` fault; it strikes after the message is already saved. Where it only queues paths (Mongoose 5), awaiting the document yields it unpopulated, so the 201 body is `MessageDocument`, with raw ids.
- Exceptions are one `ServerError` outcome. A throwing step is named in `env.faults`; propagation and logging are not modelled. The `console.error` calls are I/O.
- Request fields of non-string JSON types (numbers, arrays, objects) are not modelled. String lengths count Dafny characters, where JavaScript counts UTF-16 code units.
- The unreachable "Invalid user data" branch of signup (line 43) is not modelled, because `new User(...)` always yields a document.
- Concurrency is left out: each request runs atomically, so the check-then-insert race on signup email is not modelled.
- Express wiring (`backend/src/index.js`, `backend/src/routes/auth.route.js`) and all frontend files are routing, configuration and UI, outside this model.
