# HCG card greetings: a Dafny model of the server's decision logic

HCG is a small web application for personalised greeting cards. An admin uploads card templates
and manages a list of stock greetings. A signed-in user picks a card, types a name, optionally
picks a greeting, and receives a generated image. Every generation is logged for usage statistics.

This project models the parts of the program that make decisions.

- **The persistent store** (`server/src/db.ts`), module `Db` with `Tables`:
  - three tables (`cards`, `usage_log`, `greetings`);
  - column defaults and the NOT NULL and UNIQUE constraints;
  - AUTOINCREMENT keys that are never reused;
  - `initDb`, which creates missing tables and seeds the six default greetings into an empty
    greetings table.
- **The card renderer** (`server/src/imageService.ts`), module `Renderer`:
  - the card lookup, which ignores `is_active`;
  - the `card_<id>_<timestamp>.png` file name;
  - the SVG overlay: its size with the 1080 x 1920 fallback, a one-line or two-line text, and
    its position and style;
  - the single usage row written after a successful composite.
- **The API** (`server/src/routes.ts`), modules `Auth`, `Routes`, `Popularity` and `Ordering`:
  - `requireAuth`: the shared admin password, Bearer token parsing, Google verification and the
    admin allow-list;
  - `requireAdmin`;
  - the nine route handlers, each a pure function from (store, request) to
    (status, JSON body, new store).
  - The statistics query (join, group, order by count, limit 5) is modelled in `Popularity`. SQL
    leaves the order of tied counts open, so `Popularity.TopFive` states what every admissible
    answer satisfies, and `Popularity.PopularCards` computes one such answer.
  - `ORDER BY text ASC` is an insertion sort under SQLite's BINARY collation (code-point order,
    so upper case sorts before lower case).
- **The client's pure parts** (`client/src/App.tsx`), module `Client`:
  - the category buttons and the card filter;
  - the blank-input guards on the generate button and the add-greeting form;
  - `authFetch`'s reaction to 401 and 403;
  - the hash router's choice of screen.
- **Cross-request properties**:
  - `Guarantees` relates several requests: idempotent deletes and updates, keys not reused, and a
    determined greeting order.
  - `EndToEnd` connects the client to the server.

The outside world enters as parameters:

- `verify(token, audience)` stands for Google's token verification: either rejected, or a payload
  with an optional email.
- `imaging` stands for the image library: `metadata(image_path)` gives optional template
  dimensions, and `composite(image_path, overlay)` says whether drawing that overlay and writing
  the PNG succeeded. The overlay carries the name and greeting verbatim, so success may depend on
  the text (`Renderer.RenderCanFailForOneName`).
- `now` stands for `Date.now()`.

Request bodies are typed:

- `None` is a missing key (`undefined`).
- JSON strings are `Option<string>`; JSON numbers are `Option<int>`.
- A numeric multipart field is a `FormNumber`: the text sent, plus what `Number()` reads from it.

JavaScript truthiness (`!x`, `x || d`) is written out: "" and 0 are falsy.

Behaviour worth knowing, all modelled as the code has it:

- Any signed-in user who calls `GET /cards?admin=true` sees inactive cards too
  (`Guarantees.AdminQueryRevealsInactive`).
- An inactive card can still be rendered (`Renderer.InactiveCardStillRenders`).
- Deleting a card leaves its usage rows, which then drop out of the statistics join (with
  foreign-key enforcement off; see "## Left out").
- A card whose category is literally "All" makes a second "All" button that shows every card
  (`Client.CategoryNamedAllShowsEverything`).
- After signing out and back in, the previously chosen card is shown again
  (`Client.SignInAfterSignOut`).

Behaviour of the code that a reader might not expect:

- `POST /cards` without a name or category answers 500 with SQLite's NOT NULL message, not 400.
- `PUT /cards/:id` cannot set name, category or colour to "", because those three are applied
  only when truthy.
- Greetings are sorted by code point, not alphabetically in a locale sense.

## Model

| member | source | states |
|---|---|---|
| Tables.Insert | server/src/db.ts:15 | an insert appends one row under the key after the counter; the key is fresh and the ascending-key invariant is kept |
| Tables.Delete | server/src/routes.ts:157 | a delete keeps exactly the rows with other keys and never moves the key counter back; deleting an absent key changes nothing |
| Tables.Update | server/src/routes.ts:219-220 | an update rewrites only the rows with that key, keeps every key and the counter |
| Tables.FindAfterUpdate | server/src/routes.ts:219-220 | after an update, looking the key up yields the rewritten row |
| Tables.UpdateIdempotent | server/src/routes.ts:219-220 | applying an idempotent rewrite twice equals applying it once |
| Db.WithDefaults | server/src/db.ts:19-24 | columns left out of an insert take the schema defaults x=100, y=100, font 'Arial', colour '#000000', size 50, is_active 1 |
| Db.InsertCard | server/src/db.ts:14-25 | a missing name or category fails with SQLite's NOT NULL message (name checked first) and changes nothing; otherwise exactly one card is appended under a fresh key and the other tables are untouched |
| Db.FindCard | server/src/imageService.ts:18 | the lookup finds a card exactly when some row has that key, whatever its is_active |
| Db.DeleteCard | server/src/routes.ts:199 | deleting a card touches neither the usage log nor the greetings; an absent key changes nothing |
| Db.UpdateCard | server/src/routes.ts:219-220 | only the rows with that key change, and they change by the rewrite; schema constraints are kept |
| Db.InsertGreeting | server/src/db.ts:35-38 | an existing text fails with the UNIQUE message and changes nothing; a new one is appended exactly once under a fresh key, keeping texts unique |
| Db.DeleteGreeting | server/src/routes.ts:157 | only the greeting with that key disappears; an absent key changes nothing |
| Db.RecordUsage | server/src/imageService.ts:80 | exactly one usage row (card id, user name) is appended under a fresh key |
| Db.CreateTables | server/src/db.ts:13-39 | an existing table is kept as it is, a missing one is created empty |
| Db.SeedDistinctSucceeds | server/src/db.ts:44-53 | inserting distinct new texts one by one never fails and appends them in order under consecutive keys |
| Db.InitDb | server/src/db.ts:12-57 | initialisation never fails, keeps existing cards and usage, and leaves at least one greeting |
| Db.InitDbSeedsIffEmpty | server/src/db.ts:42-54 | the greetings table is left untouched exactly when it is non-empty; an empty one receives the six defaults in listed order under consecutive keys after the counter |
| Db.InitDbIdempotent | server/src/db.ts:13-54 | running initialisation on its own result changes nothing |
| Db.InitDbOnRunningStore | server/src/db.ts:42-43 | on a running store, initialisation is a no-op exactly when some greeting exists |
| Db.DeleteGreetings | server/src/routes.ts:155-158 | deleting a list of keys removes exactly those greetings and keeps the constraints |
| Db.ReseedAfterDeletingAll | server/src/db.ts:43-54 | once every greeting is deleted, the next initialisation seeds the six defaults again under keys larger than any used before |
| Renderer.FilenameInjective | server/src/imageService.ts:24 | two renders with a different card id or timestamp get different file names |
| Renderer.OrFallback | server/src/imageService.ts:36-37 | a missing or zero dimension falls back; any other value is used as read |
| Renderer.Content | server/src/imageService.ts:43-53 | two lines exactly when the greeting is truthy: the greeting at 0.8em with dy -0.6em, then the name at 1em, bold, dy 1.6em, both at the card's x; otherwise the name alone |
| Renderer.BuildOverlay | server/src/imageService.ts:55-76 | the overlay is the template's size (fallback 1080 x 1920) with a matching viewBox, text centred at the card's (x, y) in its colour, size and font, bold, composited at the top-left corner |
| Renderer.GenerateSignedCard | server/src/imageService.ts:17-83 | an unknown id fails as not found; success needs the card, readable metadata and a successful composite of that template with this render's overlay; the file name is card_<id>_<now>.png and the store changes only by one usage row |
| Renderer.OverlayCarriesName | server/src/imageService.ts:43-53 | two different names give two different overlays: the name reaches the image library |
| Renderer.RenderCanFailForOneName | server/src/imageService.ts:55-77 | on the same card, template and clock, an image library that rejects one name's SVG fails that render while another name still renders |
| Renderer.RenderLogsOnce | server/src/imageService.ts:79-80 | a successful render appends exactly one usage row for that card and name (not the greeting), under a fresh key, and changes nothing else |
| Renderer.InactiveCardStillRenders | server/src/imageService.ts:18 | deactivating a card does not stop it from rendering |
| Popularity.Groups | server/src/routes.ts:124-128 | one group per distinct card that is used and still present, with its current name and exact use count; every used, present card is grouped |
| Popularity.TotalCountBounded | server/src/routes.ts:125-127 | counts of groups for distinct cards add up to at most the number of usage rows |
| Popularity.GroupsForDistinct | server/src/routes.ts:128 | grouping by card id over distinct ids gives no two groups for the same card |
| Popularity.MaxIndexIsMax | server/src/routes.ts:129 | the group taken first has a count no smaller than any other group's |
| Popularity.TopSource | server/src/routes.ts:129-130 | every selected group sits at some position of the grouped rows |
| Popularity.TopSorted | server/src/routes.ts:129 | repeated max extraction yields counts in non-increasing order |
| Popularity.TopExcludesOnlySmaller | server/src/routes.ts:129-130 | a group left out of the top k has a count no larger than any selected one |
| Popularity.LargerIsTaken | server/src/routes.ts:129-130 | a group with a larger count than some selected group is itself selected |
| Popularity.TopDistinct | server/src/routes.ts:128-130 | selecting from groups for distinct cards lists each card at most once |
| Popularity.TopTakesAllWhenFew | server/src/routes.ts:130 | when there are at most k groups, LIMIT k keeps every one of them |
| Popularity.PopularCards | server/src/routes.ts:124-131 | the answer has at most five faithful groups for distinct present cards, in non-increasing count order; a used, present card is left out only when five are listed, all with at least its count; listed counts sum to at most the usage total |
| Ordering.InsertByText | server/src/routes.ts:111 | inserting into a text-sorted list keeps it sorted and adds exactly that row |
| Ordering.SortByText | server/src/routes.ts:111 | the greeting listing is a rearrangement of the rows, sorted by text under BINARY collation |
| Ordering.SortedUnique | server/src/routes.ts:111 | with distinct texts, two sorted rearrangements of the same rows are equal |
| Strings.TrimEmptyIffBlank | client/src/App.tsx:138 | a string trims to "" exactly when it consists of JavaScript white space |
| Strings.SplitJoin | server/src/routes.ts:14 | splitting a comma join of comma-free pieces gives the pieces back |
| Auth.AllowList | server/src/routes.ts:14 | the allow-list has one entry per comma-separated piece of the variable (or of "" when unset), each trimmed |
| Auth.BearerTokenRoundTrip | server/src/routes.ts:41-46 | a space-free token after "Bearer " is passed to verification unchanged |
| Auth.BearerTokenStopsAtSpace | server/src/routes.ts:46 | only the text up to the next space is taken as the token |
| Auth.Authenticate | server/src/routes.ts:32-68 | a non-empty admin password equal to the raw header admits as admin without verification; otherwise no "Bearer " prefix gives 401 Missing Token; a rejected token, or one without an email, gives 401 Invalid Token; else the caller is admin exactly when the email is on the allow-list |
| Auth.NoAllowListNoAdmin | server/src/routes.ts:61 | with the allow-list unset, nobody on the token path is an admin |
| Auth.AllowListOfJoin | server/src/routes.ts:14 | spaces around the comma-separated emails do not matter |
| Auth.RequireAdmin | server/src/routes.ts:71-77 | a non-admin identity is answered 403 "Forbidden: Admins Only"; an admin or an earlier error passes unchanged |
| Auth.AdminGate | server/src/routes.ts:35-77 | an admin route is reached exactly with the admin password, or with a verified token whose email is on the allow-list |
| Routes.CardListing | server/src/routes.ts:82-90 | admins and `?admin=true` callers get every card; others get exactly the cards with is_active = 1; both in ascending key order |
| Routes.GenerateHandler | server/src/routes.ts:93-106 | 400 "Missing cardId or userName" exactly when the card id or user name is falsy; 500 "Failed to generate card" on any render failure, with the store unchanged; success returns /generated/ followed by the file name and logs one usage row |
| Routes.StatsOf | server/src/routes.ts:122-137 | totalGenerated is the number of usage rows; popularCards is the projection of an admissible top-five answer, at most five entries in non-increasing use_count order, summing to at most the total |
| Routes.AddGreetingHandler | server/src/routes.ts:140-152 | a falsy text gives 400 "Text required"; a duplicate gives 500 with the UNIQUE message and no change; otherwise exactly one greeting is added and its new key and text are returned |
| Routes.NumberOr | server/src/routes.ts:185-187 | a non-empty numeric field is read with Number(); a missing or empty one takes the default |
| Routes.UploadRow | server/src/routes.ts:181-189 | the upload inserts x, y and size defaulting to 500, 500 and 50, colour defaulting to #000000, is_active 1, and leaves the font to the schema |
| Routes.AddCardHandler | server/src/routes.ts:166-195 | no file gives 400 "No image uploaded"; a missing name or category gives 500 with the NOT NULL message and no change; otherwise exactly one active card is appended with image path uploads/cards/<now>-<original name> |
| Routes.ApplyPatch | server/src/routes.ts:209-215 | name, category and colour change only for truthy values; x, y, size and is_active change for any value present; the image path and font never change |
| Routes.EditCardHandler | server/src/routes.ts:204-224 | always 200 success; only the target card's row changes, by the patch; a patch that sets nothing leaves the store unchanged |
| Routes.Serve | server/src/routes.ts:82-224 | a non-200 reply leaves the store unchanged; listing routes never write; schema constraints, the usage log's provenance and the key counters are kept |
| Routes.Handle | server/src/routes.ts:32-77 | an unauthenticated request is answered 401 and a non-admin on an admin route 403, both without touching the store; otherwise the handler runs; every request keeps the invariants of Serve |
| Guarantees.RemoveCardIdempotent | server/src/routes.ts:198-201 | past the admin gate, `DELETE /cards/:id` always replies 200 `{success: true}` with that card gone, and an absent id leaves the store unchanged; a second delete replies the same and changes nothing more |
| Guarantees.RemoveGreetingIdempotent | server/src/routes.ts:155-162 | past the admin gate, `DELETE /greetings/:id` always replies 200 `{success: true}` with that greeting gone, and an absent id leaves the store unchanged; a second delete replies the same and changes nothing more |
| Guarantees.EditCardIdempotent | server/src/routes.ts:204-224 | repeating an update has no further effect |
| Guarantees.EditCardIsUpdate | server/src/routes.ts:217-221 | skipping the UPDATE when nothing is set is unobservable |
| Guarantees.CardIdNotReused | server/src/db.ts:15 | after a card is deleted, the next upload gets a larger key |
| Guarantees.GreetingIdNotReused | server/src/db.ts:36 | after a greeting is deleted, the next greeting gets a larger key |
| Guarantees.DuplicateGreetingRejected | server/src/routes.ts:143-150 | posting a new greeting twice stores it once; the second post fails with the UNIQUE message and changes nothing |
| Guarantees.GreetingListingDetermined | server/src/routes.ts:111 | with unique texts the listing is the one sorted arrangement of the greetings |
| Guarantees.AdminQueryRevealsInactive | server/src/routes.ts:83 | any signed-in caller asking with ?admin=true is shown every card, inactive ones included |
| Guarantees.UsersSeeActiveCards | server/src/routes.ts:83-88 | a signed-in non-admin without the flag sees exactly the active cards |
| Guarantees.GenerateCountedOnce | server/src/routes.ts:123 | a successful generate raises totalGenerated by exactly one |
| Guarantees.GeneratedUrlsDiffer | server/src/routes.ts:101 | different cards or timestamps give different URLs |
| Client.Categories | client/src/App.tsx:70 | "All" first, then exactly the cards' categories, each once |
| Client.EveryCategoryListed | client/src/App.tsx:70 | every card's category has a button |
| Client.CategoriesInFirstAppearanceOrder | client/src/App.tsx:70 | buttons follow the order in which categories first appear among the cards |
| Client.FilterCards | client/src/App.tsx:71 | "All" shows every card; any other filter shows exactly the cards of that category |
| Client.FilterKeepsOrder | client/src/App.tsx:71 | filtering keeps the cards' relative order |
| Client.EveryButtonShowsCards | client/src/App.tsx:70-71 | every category button other than "All" shows at least one card, all of that category |
| Client.CategoryNamedAllShowsEverything | client/src/App.tsx:70-71 | a category named "All" gets its own button, which shows every card |
| Client.GenerateAction | client/src/App.tsx:137-148 | nothing is sent exactly when the name is blank; otherwise the card id, the untrimmed name and the greeting are sent |
| Client.GenerateEnabled | client/src/App.tsx:223 | the button is enabled exactly for a non-blank name while no request runs |
| Client.EnabledButtonSends | client/src/App.tsx:222-223 | a click on the enabled generate button always sends a request: the button's `disabled` guard is at least as strict as `handleGenerate`'s blank-name return |
| Client.AddGreetingAction | client/src/App.tsx:303-310 | nothing is sent exactly when the input is blank; otherwise the untrimmed, non-empty text is sent |
| Client.AuthFetch | client/src/App.tsx:279-288 | 401 means session expired, 403 means "Access Denied: Admins Only", any other status passes through |
| Client.ScreenOf | client/src/App.tsx:472-484 | no token shows the login screen; else "#admin" shows the dashboard whatever card is chosen; else a chosen card shows personalisation; else the selection |
| Client.SignOut | client/src/App.tsx:465-470 | signing out drops the token and clears the hash but keeps the chosen card |
| Client.AfterReply | client/src/App.tsx:279-283 | a 401 reply ends on the login screen; any other reply leaves the app state alone |
| Client.SignInAfterSignOut | client/src/App.tsx:460-470 | signing out and in again shows the chosen card, or the selection, not the dashboard |
| EndToEnd.RejectedTokenSignsOut | client/src/App.tsx:276-283 | on the admin dashboard, a request whose token Google rejects gets 401 from the server and `authFetch` signs the client out to the login screen |
| EndToEnd.NonAdminDashboardDenied | client/src/App.tsx:284-287 | a signed-in user not on the allow-list gets the access-denied message from every admin route, and the store is untouched |
| EndToEnd.ClientGenerateAccepted | client/src/App.tsx:137-148 | a generate request the client sends for a card it was shown never gets the 400 for a missing card id or user name |
| EndToEnd.NoGreetingMeansNameOnly | client/src/App.tsx:125 | the client's default empty greeting gives a one-line overlay with the name alone |
| EndToEnd.ClientGreetingAccepted | client/src/App.tsx:305-310 | a greeting the client sends is never answered "Text required" |

## Left out

- Image processing (sharp's `metadata`, `composite` and `toFile`) is an oracle. It gives optional
  dimensions and, for a template and an overlay, one success flag. No pixels or files are
  modelled. The SVG text is not serialised, so which texts (an unescaped `&` or `<`) make the
  SVG malformed is left to the oracle.
- Google ID-token verification is an oracle from (token, audience) to a verdict.
- The error thrown on a failed verification is not modelled, and neither is logging.
- The SQL engine is replaced by tables as sequences of rows in key order.
- The column types and SQLite's type affinity are not modelled. The `:id` route parameters are
  taken as integers already.
- Foreign-key enforcement on `usage_log.card_id` is not modelled: whether it is on depends on the
  SQLite build and pragmas. Card deletes touch only the cards table.
- `usage_log.created_at` is not modelled; nothing reads it.
- multer's disk storage is left out. Only the original file name reaches the model.
- `Date.now()` is the parameter `now`: each request reads the clock once.
- `Number()` coercion of arbitrary text (NaN, hexadecimal, white space) is not modelled. A
  `FormNumber` carries the reading, and JSON numbers are integers.
- JSON bodies whose values have other types (null, booleans, arrays, strings where numbers are
  expected) are not modelled.
- JavaScript's exponent notation for integers of 1e21 and more is not modelled in the file name.
- Exceptions reaching Express's default handler are not modelled. They come from the handlers
  without try/catch (DELETE and PUT /cards, GET /stats). The model has no failing step there.
- The 500 branch of GET /greetings is not modelled: the modelled query cannot fail.
- Static file serving, the SPA fallback and process start-up (`server/src/index.ts`,
  `server/src/index.js`, `client/src/main.tsx`) are not part of this model.
- The compiled `.js` files beside the TypeScript sources are not modelled. They are stale build
  output, and the TypeScript sources are what the model follows.
- On the client, React rendering, `fetch`, `localStorage`, `alert` and `confirm`, and
  `navigator.share`/clipboard are not modelled.
- The selection screen's own 401 check only logs, so it is not modelled.
- Popularity.PopularCards: computes one admissible tie order. What holds for every order SQLite
  may return is stated by `Popularity.TopFive`, not by equality with the query's answer.
- Auth.Authenticate: the token payload attached to the request is reduced to its email, the only
  field the middleware reads; no handler reads the payload.
