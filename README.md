# SCSN feed data layer in Dafny

This project models the server-side data layer of SCSN (Senior Citizens Social Network), a demo social feed written as one PHP file, `scsn_v2.php`. It also models the decision logic of the page's `renderFeed` script. The model covers:

- **Store** (`Server.Store`): a class holding the `users` and `posts` tables as sequences, plus their AUTOINCREMENT counters. Its invariant (`Schema.Valid`) covers ascending positive ids, the UNIQUE `handle` and the FOREIGN KEY from `posts.user_id` to `users.id`.
- **Bootstrap** (`Server.Store.Bootstrap`): seeds a single demo user, `@senior_demo`, and three demo posts, but only when `users` has no rows. The seed posts are inserted one at a time by a loop. The resulting state is specified by the pure function `Seeding.Seeded`, and idempotence and the seed's shape are proved about that function.
- **Create** (`Server.Store.CreatePost`): the steps run in the source's order:
  1. reject a request that is not a JSON object (`Invalid JSON`);
  2. trim the body with PHP's `trim`, and reject it if empty (`Body is required`);
  3. trim the kind and coerce it to `normal` if it is not on the allow-list;
  4. pick the user with the smallest id as the actor (`No user found` if there is none);
  5. append one non-highlighted post and return it joined with the actor.
- **List** (`Feed.ListPosts`): a pure query. It joins posts with their owners, orders them by `created_at` ascending and keeps at most 100 rows. Because the cap is applied after an ascending sort, the result is the **oldest** 100 posts.
- **Routing** (`Api.Route`, `Server.Store.Handle`): dispatch on the `api` query parameter. Both API operations bootstrap first, because `scsn_get_pdo` does. The HTML page and unknown endpoints never touch the database.
- **Rendering** (`Render.RenderFeed`):
  - emergency styling and the label, both decided by kind;
  - alternating cards;
  - the highlight panel, which shows the first highlighted row in list order;
  - the post count.

Time is abstract. Each request receives `now`, the database's `CURRENT_TIMESTAMP`, as a parameter. Create also receives `appNow`, PHP's `date()`, which is an independent clock reading and goes into the returned `created_at`. Nothing assumes that the clock is monotone. The lemmas that pin down exactly which posts are listed take `Schema.StrictlyChronological` (strictly increasing `created_at` along the table) as a hypothesis. `CreatePost` proves that a create stamped no earlier than every existing post keeps the table chronological, and that one stamped later than every existing post keeps it strictly chronological.

Two points of the program's behaviour are easy to misread:

- The highlight panel shows the first flagged row in list order. Since the list is ascending, that is the oldest flagged post among those listed, not the most recent one.
- The list query orders by `created_at` only, so the database does not fix the order of rows with equal timestamps. `Feed.ListPosts` breaks such ties by table order (a stable sort). That is one of the orders the database may produce, and it agrees with id order because ids ascend along the table. The list contracts that hold for any store state only sortedness, the cap, and that the rows kept are the earliest ones; these hold whatever order the ties come in. The lemmas that name exactly which posts are listed assume strictly increasing timestamps. `Feed.ListPostsAnyOrder` shows why that is enough: when no two joined rows share a timestamp, every sorted order gives the same list.

## Model

| member | source | states |
|---|---|---|
| `Text.Trim` | scsn_v2.php:213-214 | PHP `trim` on " \t\n\r\0\x0B": the result is a slice of the input cut only at trim characters, does not start or end with one, and is empty iff the input is all trim characters |
| `Text.TrimNoEdges` | scsn_v2.php:214 | a string without trim characters at its ends (such as the default `normal`) is its own trim |
| `Text.TrimIdempotent` | scsn_v2.php:213-214 | trimming twice equals trimming once |
| `Schema.ParseKind` | scsn_v2.php:223-226 | a string names a kind iff it is on the allow-list `normal, help, 911, emergency_address`, and then it is exactly that kind's stored text |
| `Schema.NoUsersNoPosts` | scsn_v2.php:89 | under the foreign key, a store without users has no posts |
| `Seeding.SeedRows` | scsn_v2.php:134-163 | the seed has three rows; row `i` has id `firstId + i`, is owned by the seeded user, is of kind normal, is stamped `now`, carries the `i`-th seed body, and is highlighted iff it is the first |
| `Seeding.Seeded` | scsn_v2.php:120-164 | a store with a user is left as it is. An empty `users` table gains exactly one user, `@senior_demo` / `Senior Demo User`, with the next user id. Three posts owned by that user are appended after the existing posts, which are kept, and both id counters advance accordingly |
| `Seeding.SeededNonEmptyUnchanged` | scsn_v2.php:120-121 | bootstrap on a store with at least one user changes nothing |
| `Seeding.SeededIdempotent` | scsn_v2.php:120-164 | after bootstrap there is a user, so a second bootstrap at any time changes nothing |
| `Seeding.SeededEmptyShape` | scsn_v2.php:122-163 | seeding an empty store yields exactly one user, `@senior_demo` / `Senior Demo User`, and exactly three posts, all owned by that user and of kind normal; only the first is highlighted |
| `Seeding.SeededTwiceFromEmpty` | scsn_v2.php:120-164 | bootstrapping a fresh database twice yields exactly one user (`@senior_demo`) and three posts |
| `Seeding.SeededValid` | scsn_v2.php:72-89 | bootstrap keeps the schema constraints: ascending ids, unique handles, and every post's owner exists |
| `Api.ApiError.Status` | scsn_v2.php:207-279 | `Invalid JSON` and `Body is required` are 400, `No user found` is 500 and the unknown endpoint is 404, each in both directions |
| `Api.ApiError.Message` | scsn_v2.php:207-279 | each error carries its own exact message text, and each message identifies its error |
| `Api.Response.Status` | scsn_v2.php:207-279 | a response has status 200 iff it is not an error object, and 500 iff it is the `No user found` error |
| `Api.Route` | scsn_v2.php:270-281 | no `api` parameter serves the page; `posts-list` and `posts-create` pick their operation; every other value is the unknown endpoint (both directions of each case) |
| `Feed.ValidateBody` | scsn_v2.php:213-221 | the body passes iff it is present and contains a non-trim character; then the result is its non-empty trim; otherwise the error is `Body is required` |
| `Feed.ResolveKind` | scsn_v2.php:214-226 | an absent kind is normal; a kind whose trim is on the allow-list is that trimmed value; any other kind is coerced to normal |
| `Feed.FirstUser` | scsn_v2.php:229-238 | the actor query returns nothing iff `users` is empty, and otherwise returns a user whose id is the smallest |
| `Feed.FirstUserIsFirstRow` | scsn_v2.php:72 | since ids are assigned in ascending order, the actor is the first user row |
| `Feed.OwnerOf` | scsn_v2.php:184 | the join partner of a post exists iff some user has its `user_id`, and when it exists it has that id |
| `Feed.Joined` | scsn_v2.php:176-184 | a joined row carries the post's id, body, `created_at` and highlight flag, the owner's `handle` and `display_name`, and the post's kind as its stored text, which parses back to that kind |
| `Feed.JoinRows` | scsn_v2.php:175-184 | every joined row is a post of the table combined with its owner's handle and display name; when every post has an owner, the join is row for row and in table order |
| `Feed.SortByCreated` | scsn_v2.php:185 | `ORDER BY created_at ASC`: the result is sorted by non-decreasing `created_at` and is a permutation of its input |
| `Feed.ListPosts` | scsn_v2.php:175-189 | the list has min(#joined rows, 100) rows, sorted by `created_at`, each row taken from the join (sub-multiset) |
| `Feed.ListPostsEarliest` | scsn_v2.php:185-186 | the cap keeps the earliest rows: every joined row that is left out is no older than every row returned |
| `Feed.ListPostsValid` | scsn_v2.php:175-189 | on a valid store, the list has min(#posts, 100) rows, each a post joined with its owner's handle and display name |
| `Feed.SortSortedIdentity` | scsn_v2.php:185 | sorting rows that are already in `created_at` order leaves them as they are |
| `Feed.SortedUnique` | scsn_v2.php:185 | two `created_at`-sorted arrangements of the same rows are equal when no two different rows share a timestamp |
| `Feed.ListPostsAnyOrder` | scsn_v2.php:185-186 | when no two different joined rows share a timestamp, any sorted arrangement of the join that the database may return, cut at 100 rows, is exactly the list |
| `Feed.StrictTimesDetermineRows` | scsn_v2.php:175-185 | on a valid store with strictly increasing timestamps, no two different joined rows share a timestamp |
| `Feed.ListPostsChronological` | scsn_v2.php:185-186 | with strictly increasing timestamps, the list is exactly the first min(#posts, 100) posts of the table, joined with their owners |
| `Feed.ListPostsChronologicalAnyOrder` | scsn_v2.php:175-186 | with strictly increasing timestamps, every sorted order the database may return has one row per post, and its first min(#posts, 100) rows are the oldest posts of the table, joined with their owners |
| `Feed.ListOmitsNewest` | scsn_v2.php:185-186 | with more than 100 posts and strictly increasing timestamps, the newest post is not listed (oldest 100, not newest 100) |
| `Feed.ListEndsWithNewest` | scsn_v2.php:175-189 | with at most 100 posts and strictly increasing timestamps, the newest post is the last row listed, joined with its owner |
| `Server.Store.constructor` | scsn_v2.php:69-91 | a new database has both tables empty, both id sequences at 1, and satisfies the schema |
| `Server.Store.InsertUser` | scsn_v2.php:123-130 | an insert into `users` succeeds iff the handle is not taken (UNIQUE); on success it appends the row with the next id and changes nothing else; on failure it changes nothing |
| `Server.Store.InsertPost` | scsn_v2.php:152-162 | an insert into `posts` succeeds iff the owner exists (FOREIGN KEY); on success it appends the row with the next id (the `lastInsertId`) and changes nothing else; on failure it changes nothing |
| `Server.Store.InsertSeedPosts` | scsn_v2.php:156-163 | the seed loop appends exactly the seed rows, in order, with consecutive ids, and leaves `users` alone |
| `Server.Store.Bootstrap` | scsn_v2.php:120-164 | the new store is `Seeding.Seeded` of the old one, and the schema constraints still hold |
| `Server.Store.CreatePost` | scsn_v2.php:200-264 | a non-object fails with `Invalid JSON`, an empty trimmed body with `Body is required`, and an empty `users` table with `No user found`, and each failure leaves the store unchanged. Create succeeds iff none of those applies. Then it appends exactly one post, with the lowest-id user's id, the trimmed body, the resolved kind, `is_highlight` 0 and the next id, which is larger than every existing post id. Users and older posts are unchanged. The returned record carries that id and the actor's `handle` and `display_name`, with `created_at` taken from the separate reading `appNow`. A create stamped no earlier than the existing posts keeps the table chronological, and one stamped later than all of them keeps it strictly chronological |
| `Server.Store.Handle` | scsn_v2.php:270-281 | the page and unknown endpoints (404) leave the store unchanged. `posts-list` bootstraps, then returns the list of the bootstrapped store. Its status is always 200. `posts-create` bootstraps, so there is always an actor and it never fails with `No user found` (its status is never 500). A non-object fails with `Invalid JSON`, and an empty trimmed body with `Body is required`; on error the store is the bootstrapped one. Create succeeds iff the input is an object with a non-empty trimmed body. Then exactly one post is appended to the bootstrapped store: the next id, the first user, the trimmed body, the resolved kind, stamped `now` and not highlighted. The response is that post joined with the first user, with `created_at` from `appNow` |
| `Render.IsEmergency` | scsn_v2.php:763-766 | a kind is styled as an emergency iff it parses as a stored kind other than normal |
| `Render.Label` | scsn_v2.php:776-783 | a kind gets a non-empty label iff it is an emergency kind; every label is bracketed and ends with a space |
| `Render.CardFor` | scsn_v2.php:763-800 | a card carries the label of its own kind; it is styled as an emergency iff its kind is an emergency kind, which holds iff that label is non-empty; it is an alternate card iff its index is odd; it shows the row's handle, display name, body and timestamp |
| `Render.HighlightedText` | scsn_v2.php:804-811 | the panel keeps the text it showed when no row is highlighted; otherwise it shows the body of the first highlighted row |
| `Render.EmergencyIffLabelled` | scsn_v2.php:763-783 | a kind is styled as an emergency iff it gets a label, which holds iff it is `help`, `911` or `emergency_address`; among stored kinds that is every kind but normal, and each has a distinct label |
| `Render.FirstHighlight` | scsn_v2.php:804-806 | there is no highlighted position iff no row is highlighted; otherwise the position is a highlighted row with no highlighted row before it |
| `Render.RenderFeed` | scsn_v2.php:758-815 | one card per row, carrying that row's emergency flag, its label and whether its index is odd. The highlight panel shows the body of the first highlighted row in list order, and keeps its previous text when no row is highlighted. The post count is the list length |

## Left out

- Connection setup, the cached `static $pdo`, the driver switch and the SQLite/MariaDB DDL differences (scsn_v2.php:37-117) are left out. The tables are sequences that always exist, so `CREATE TABLE IF NOT EXISTS` has nothing left to decide.
- The MariaDB `VARCHAR` limits (`handle` 32, `display_name` 80, `body` 280) are left out. The default SQLite schema does not enforce them, and the page's `maxlength` is only a UI hint.
- Storage failures, such as a database that cannot be opened or written, are left out. They surface in PHP as uncaught exceptions, not as a modelled response.
- Real timestamps and their `DATETIME`/`Y-m-d H:i:s` formats are left out. Clock readings are abstract naturals passed in as parameters.
- `Server.Store.Bootstrap` and `Server.Store.Handle` stamp the seed user, all three seed posts and, for a `posts-create` request that seeds the store, the created post with the same reading `now`. The source makes four or five separate `CURRENT_TIMESTAMP` reads (the fifth at the insert of scsn_v2.php:240-248), which normally agree at one-second resolution.
- `Feed.ListPosts` fixes one order among posts with equal `created_at`: table order. SQL leaves that order unspecified. The contracts of `Feed.ListPosts` and `Feed.ListPostsEarliest` do not depend on the choice.
- `Feed.ListPostsChronological`, `Feed.ListOmitsNewest` and `Feed.ListEndsWithNewest` assume strictly increasing timestamps. With ties the database may order equal-timestamp rows either way, so which posts fall at the cap and which comes last is not fixed. This is the case for the three seed posts, which share one `now`.
- HTTP transport is left out: headers, status-code emission, `json_encode`/`json_decode` and `exit`. A request whose decoded value is not a PHP array is the `None` input. A JSON list passes `is_array` and is therefore an input whose `body` and `kind` are both absent. Responses are the `Api.Response` datatype, and `ApiError.Status` gives the HTTP code.
- Create requests whose `body` or `kind` is a JSON value other than a string or null are left out. Under `strict_types`, `trim` of such a value raises a TypeError that is not handled.
- The count-then-insert race in seeding under concurrent requests is concurrency, and is left out.
- Everything else in the page is left out: the HTML, the CSS, DOM construction, the `fetch` calls, `loadPosts`, the client-side `createPost` checks and alerts, the character counter and the simulated login toggle (scsn_v2.php:287-921 apart from `renderFeed`). So is the card's displayed date, `toLocaleString` of `created_at`.
- Text is modelled as sequences of characters. PHP's `trim` works on bytes, which agrees for the ASCII characters it strips.
