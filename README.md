# Community site core, modelled in Dafny

This project models the core of a small community web application. The
application has chat messages, events with likes, PK battles, announcements,
custom content pages, users with roles, and a key-value settings store. The
model covers four parts:

- **`DatabaseStorage`, the repository.** A class whose fields are the tables.
  Each table is a sequence of rows in one fixed order (see "## Left out"), with a `serial` id counter
  per table and the settings map. Its methods do what their queries do. The
  `unique()` columns (username, slug) and the foreign key from messages to
  users are checked as the database checks them. Every method keeps the class
  invariant `Valid()`, which covers:
  - unique and increasing ids;
  - unique usernames and slugs;
  - messages that reference existing users;
  - `likes == |likedBy|` with no liker listed twice.
- **The REST handlers of `registerRoutes`.** The access check is a pure
  decision, `Guard`. One handler method per route composes the check, the body
  parse and the repository call, and states the response and the new state.
  The handlers also cover the seed of the admin account on an empty user
  table.
- **The shared schema and route table.** This part has:
  - one row datatype per table;
  - the role and page-type enums;
  - the column defaults applied on insert;
  - partial patches;
  - the path table;
  - `buildUrl`, a loop proved against a recursive specification.
- **The pure rules of the client components.** These are:
  - the chat widget's delete permission, submit guard and reply line;
  - the navigation bar's site name and menu;
  - the employee-of-the-month podium;
  - the announcement bar;
  - the custom page lookup.

Modules follow the source files: `Schema` (shared/schema.ts), `Storage`
(server/storage.ts), `ServerRoutes` (server/routes.ts), `Api`
(shared/routes.ts), `ChatWidget`, `Navigation`, `EmployeeOfMonth`,
`AnnouncementBar` and `CustomPage`. `Tables` holds the sequence operations
the others share: `filter`, `find`, `slice`, `ORDER BY … DESC`, `UPDATE …
WHERE id` and `DELETE … WHERE id`. `Wrappers` holds `Option` and `Result`.

Timestamps are integer milliseconds. A storage call or a handler that
throws is a `Result.Err` or an `Unhandled` response. Request bodies reach a
handler already parsed, as `Parsed(value)` or `Invalid`.

Some behaviour of the code may surprise a reader. The model follows the code
in each case:

- `POST /api/users` and `PATCH /api/users/:id` store the password exactly as
  sent. Only the seeded admin gets a hashed password.
- `PATCH /api/users/:id` on an id with no row answers 200 with an empty
  body. It does not answer 404.
- `PATCH /api/users/:id` with a body that sets no field answers 400, whether
  or not the id exists. The query builder refuses an `UPDATE` with nothing to
  set (`EmptyUpdate`). That refusal comes from the drizzle library, which is
  not part of this model; `updatePage` is modelled the same way.
- A user may patch their own row, the `role` column included, so a plain user
  can make themselves admin (`ServerRoutes.SelfPromotion`).
- `DELETE /api/messages/:id` lets every logged-in user delete every message,
  and answers 204 even when no such message exists. The 15-minute rule exists
  only in the chat widget (`ChatWidget.ServerIgnoresDeleteWindow`).
- The following errors escape their handler instead of becoming 400
  responses:
  - a rejected body on any POST other than users;
  - a taken slug;
  - liking an event that does not exist;
  - deleting a user who still has messages.
- The server registers no PATCH or DELETE route for pages, although the path
  table and the repository have them.
- Messages are deleted outright. The `isDeleted` column is never set.
- A PK battle's player count is not checked against its maximum
  (`Schema.BattleCountUnconstrained`).

## Model

| member | source | states |
|---|---|---|
| `Schema.ParseRole` | shared/schema.ts:12 | the role column accepts exactly "admin", "moderator" and "user", each read as the role it names |
| `Schema.RoleRoundTrip` | shared/schema.ts:12 | every role is stored as a text the enum accepts and reads back as itself |
| `Schema.ParsePageType` | shared/schema.ts:34 | the page type accepts exactly "game", "movie" and "custom" |
| `Schema.NewUser` | shared/schema.ts:8-18 | a new user gets the next id and the given columns; role defaults to user; the employee flag defaults to off |
| `Schema.NewMessage` | shared/schema.ts:20-27 | a new message is stamped with the current time and is not deleted; the insert cannot set either column |
| `Schema.NewPage` | shared/schema.ts:29-37 | a new page is visible unless the insert says otherwise, and its order defaults to 0 |
| `Schema.NewEvent` | shared/schema.ts:39-47 | a new event starts with 0 likes and an empty liker list, because the insert omits both |
| `Schema.NewPkBattle` | shared/schema.ts:49-56 | player count defaults to 2 and maximum to 10 |
| `Schema.NewAnnouncement` | shared/schema.ts:58-62 | a new announcement is active unless the insert says otherwise |
| `Schema.BattleCountUnconstrained` | shared/schema.ts:54-55 | an insert may give more players than the maximum |
| `Schema.ApplyUserPatch` | server/storage.ts:80-83 | the `SET` of a partial user update never changes the id, and an empty patch leaves the row as it was |
| `Schema.UserPatchFields` | shared/schema.ts:114 | for each of the eight columns, the patched row holds the patch's value when the patch sets it and the old value otherwise; the id is kept; applying a patch twice is applying it once |
| `Schema.ApplyPagePatch` | server/storage.ts:117-120 | the `SET` of a partial page update never changes the id, and an empty patch leaves the page as it was |
| `Schema.PagePatchFields` | server/storage.ts:117-120 | for each of the six columns, the patched page holds the patch's value when the patch sets it and the old value otherwise; the id is kept; applying a patch twice is applying it once |
| `Schema.ShownName` | client/src/components/ChatWidget.tsx:131 | a user's shown name is the display name when it is set and non-empty, otherwise the username |
| `Schema.ShownNameAfterPatch` | client/src/components/ChatWidget.tsx:131 | after a user patch, a non-empty display name it sets is shown; clearing the display name shows the (possibly patched) username; a patch that touches neither name leaves the shown name as it was |
| `Tables.SortDesc` | server/storage.ts:94-96 | `ORDER BY … DESC`: the result is sorted by the key, latest first, and is a permutation of the table |
| `Tables.MapWhereUnique` | server/storage.ts:80-83 | with unique ids, `UPDATE … WHERE id` changes the one row with that id and no other, or nothing when there is none |
| `Tables.FilterOrder` | client/src/components/EmployeeOfMonth.tsx:11 | `filter` keeps the relative order of the rows it keeps |
| `Tables.FindFirstAfterFilter` | client/src/components/AnnouncementBar.tsx:7 | finding the first row with a property in the rows that have it gives the first such row of the whole list |
| `Storage.Like` | server/storage.ts:136-152 | after a like, the user is among the likers, and the event's other columns are unchanged |
| `Storage.LikeEffect` | server/storage.ts:140-151 | a listed user's like returns the event as stored; otherwise likes is the old count (null read as 0) plus one, and the user is appended to the old list (null read as empty) |
| `Storage.LikeIdempotent` | server/storage.ts:140-141 | a second like by the same user changes nothing |
| `Storage.LikePreservesConsistency` | server/storage.ts:136-152 | a like keeps `likes == \|likedBy\|` with no liker listed twice |
| `Storage.RepeatedLikesAreOneLike` | server/storage.ts:140-141 | any positive number of likes by one user has the effect of one |
| `Storage.LikesCommute` | server/storage.ts:143-151 | likes by two different users give the same count and the same likers in either order, and both users are listed |
| `Storage.ReferencesKept` | shared/schema.ts:22 | messages keep referencing users while every old user id is still present |
| `Storage.DeleteUserReferences` | server/storage.ts:85-87 | deleting a user keeps every message's author present exactly when the user has no messages |
| `Storage.DatabaseStorage.constructor` | server/storage.ts:54-61 | the repository starts with empty tables, an empty settings map and every id sequence at 1, and satisfies its invariant |
| `Storage.DatabaseStorage.GetUser` | server/storage.ts:65-68 | returns a stored user with that id, or nothing exactly when none has it |
| `Storage.DatabaseStorage.GetUserByUsername` | server/storage.ts:70-73 | returns a stored user with that username, or nothing exactly when none has it |
| `Storage.DatabaseStorage.CreateUser` | server/storage.ts:75-78 | appends the new row and returns it when the username is free; otherwise fails on the username column, the table unchanged; the id sequence advances either way |
| `Storage.DatabaseStorage.UpdateUser` | server/storage.ts:80-83 | fails, changing nothing, when the patch sets no column, whether or not the id exists; otherwise patches the one row with that id and returns it; returns nothing, changing nothing, for an unknown id; fails, changing nothing, when the new username is another user's |
| `Storage.DatabaseStorage.DeleteUser` | server/storage.ts:85-87 | hard-deletes the rows with that id, without checking that one exists; fails, changing nothing, when a message still references the user |
| `Storage.DatabaseStorage.GetAllUsers` | server/storage.ts:89-91 | returns the user table, in the model's fixed row order |
| `Storage.DatabaseStorage.GetMessages` | server/storage.ts:94-96 | returns every stored message and nothing else, newest first |
| `Storage.DatabaseStorage.CreateMessage` | server/storage.ts:98-101 | appends the message stamped with the current time when its author exists; otherwise fails on the foreign key, the table unchanged |
| `Storage.DatabaseStorage.DeleteMessage` | server/storage.ts:103-105 | hard-deletes exactly the rows with that id; the other messages stay in order |
| `Storage.DatabaseStorage.GetPages` | server/storage.ts:108-110 | returns every page, hidden ones included, in the model's fixed row order |
| `Storage.DatabaseStorage.CreatePage` | server/storage.ts:112-115 | appends the page with its defaults when the slug is free; otherwise fails on the slug column, the table unchanged |
| `Storage.DatabaseStorage.UpdatePage` | server/storage.ts:117-120 | fails, changing nothing, when the patch sets no column; otherwise patches the one page with that id and returns it; returns nothing for an unknown id; fails, changing nothing, when the new slug is another page's |
| `Storage.DatabaseStorage.DeletePage` | server/storage.ts:122-124 | hard-deletes exactly the rows with that id |
| `Storage.DatabaseStorage.GetEvents` | server/storage.ts:127-129 | returns every stored event and nothing else, latest date first |
| `Storage.DatabaseStorage.CreateEvent` | server/storage.ts:131-134 | appends the event with no likes and returns it |
| `Storage.DatabaseStorage.LikeEvent` | server/storage.ts:136-152 | fails with "Event not found", changing nothing, for an unknown id; otherwise replaces only that event by its liked form and returns it |
| `Storage.DatabaseStorage.GetPkBattles` | server/storage.ts:155-157 | returns the battle table, in the model's fixed row order |
| `Storage.DatabaseStorage.CreatePkBattle` | server/storage.ts:159-162 | appends the battle with its defaults and returns it |
| `Storage.DatabaseStorage.GetAnnouncements` | server/storage.ts:165-167 | returns exactly the active announcements, in the model's fixed row order |
| `Storage.DatabaseStorage.CreateAnnouncement` | server/storage.ts:169-172 | appends the announcement with its default and returns it |
| `Storage.DatabaseStorage.GetSetting` | server/routes.ts:171 | returns the value stored under the key, or nothing exactly when there is none |
| `Storage.DatabaseStorage.SetSetting` | server/routes.ts:179 | stores the value under the key, replacing any earlier one, and changes no other key |
| `ServerRoutes.Guard` | server/routes.ts:42-177 | the per-route access check: only a request without a session is unauthenticated, and never on an admin-only route; apart from reading a setting nothing proceeds without a session; nothing admin-only proceeds for a non-admin |
| `ServerRoutes.AdminOnlyGate` | server/routes.ts:48 | an admin-only route lets exactly admins through and answers 403 to everyone else, anonymous callers included |
| `ServerRoutes.SessionOnlyGate` | server/routes.ts:42 | a session-only route answers 401 exactly to anonymous callers and lets every logged-in user through |
| `ServerRoutes.PatchUserGate` | server/routes.ts:59-63 | PATCH on a user answers 401 to anonymous callers and 403 to a non-admin on another user's id; it lets an admin or the user themself through |
| `ServerRoutes.SettingsReadIsPublic` | server/routes.ts:170-173 | reading a setting needs no session |
| `ServerRoutes.SelfPromotion` | server/routes.ts:58-67 | a plain user passes the check on their own id, and a patch setting the role makes them admin |
| `ServerRoutes.HandleListUsers` | server/routes.ts:41-45 | 401 without a session, otherwise 200 with every user |
| `ServerRoutes.HandleCreateUser` | server/routes.ts:47-56 | 403 unless admin; 400 on a rejected body or a taken username; otherwise 201 with the appended row |
| `ServerRoutes.HandleUpdateUser` | server/routes.ts:58-72 | the gate's status when refused; 400 on a rejected body, on a patch that sets no field, or on a taken username; 200 with no body for an unknown id; otherwise 200 with the patched row |
| `ServerRoutes.HandleDeleteUser` | server/routes.ts:74-78 | 403 unless admin; 204 after the hard delete, or an escaped error when the user still has messages |
| `ServerRoutes.HandleListMessages` | server/routes.ts:81-85 | 401 without a session, otherwise 200 with every message, newest first |
| `ServerRoutes.HandleCreateMessage` | server/routes.ts:87-96 | 401 without a session; the stored author is the session's user; 201 with the row, or an escaped error on a rejected body or an unknown author |
| `ServerRoutes.HandleDeleteMessage` | server/routes.ts:98-105 | 401 without a session; otherwise 204 and the message is gone, whoever wrote it and however old it is |
| `ServerRoutes.HandleListPages` | server/routes.ts:108-112 | 401 without a session, otherwise 200 with every page |
| `ServerRoutes.HandleCreatePage` | server/routes.ts:114-119 | 403 unless admin; 201 with the appended page, or an escaped error on a rejected body or a taken slug |
| `ServerRoutes.HandleListEvents` | server/routes.ts:122-126 | 401 without a session, otherwise 200 with every event, latest date first |
| `ServerRoutes.HandleCreateEvent` | server/routes.ts:128-133 | 403 unless admin; 201 with the appended event, which has no likes |
| `ServerRoutes.HandleLikeEvent` | server/routes.ts:135-139 | 401 without a session; the liker is the session's user; 200 with the liked event, or an escaped error for an unknown event |
| `ServerRoutes.HandleListPkBattles` | server/routes.ts:142-146 | 401 without a session, otherwise 200 with every battle |
| `ServerRoutes.HandleCreatePkBattle` | server/routes.ts:148-153 | 403 unless admin; 201 with the appended battle |
| `ServerRoutes.HandleListAnnouncements` | server/routes.ts:156-160 | 401 without a session, otherwise 200 with the active announcements |
| `ServerRoutes.HandleCreateAnnouncement` | server/routes.ts:162-167 | 403 unless admin; 201 with the appended announcement |
| `ServerRoutes.HandleGetSetting` | server/routes.ts:170-174 | no session needed; 404 when nothing is stored under the key, otherwise 200 with the value |
| `ServerRoutes.HandleSetSetting` | server/routes.ts:176-181 | 403 unless admin; stores the value and echoes the key and value |
| `ServerRoutes.SeedAdmin` | server/routes.ts:24-38 | creates the admin account exactly when the user table is empty, and leaves everything as it was otherwise |
| `Api.NatToStringRoundTrip` | shared/routes.ts:234 | the decimal rendering of a number reads back as that number |
| `Api.IntToString` | shared/routes.ts:234 | `String(n)` is a minus sign for negative numbers followed by the digits of the magnitude, with no leading zero, and never holds a `:`; `Api.Render` (`String(value)`) uses it for numbers and passes strings through |
| `Api.FindFrom` | shared/routes.ts:233 | `includes`/`indexOf`: the result is the first position holding the pattern, or nothing when no position does |
| `Api.ReplaceFirst` | shared/routes.ts:234 | `replace` with a string pattern swaps the first occurrence for the value and keeps the text before and after it |
| `Api.LaterOccurrenceKept` | shared/routes.ts:234 | an occurrence after the first one survives a replacement, shifted by the change in length |
| `Api.RepeatedPlaceholder` | shared/routes.ts:234 | in a path with a repeated placeholder, only the first one is filled |
| `Api.Substitute` | shared/routes.ts:232-236 | the parameters are applied in order, each filling the first occurrence of its `:key` in the url built so far; when no parameter's placeholder occurs in the url, the url is unchanged |
| `Api.BuildUrl` | shared/routes.ts:229-239 | returns the path unchanged without parameters; otherwise it takes the parameters in order and fills the first occurrence of each present `:key` |
| `Api.NoPlaceholderUnchanged` | shared/routes.ts:229-239 | a path without `:` comes back unchanged, whatever the parameters |
| `Api.AbsentParameterIgnored` | shared/routes.ts:233 | a parameter whose placeholder is absent has no effect |
| `Api.PrefixKeyMatches` | shared/routes.ts:233-234 | placeholders match as text: the key `i` fills the `:i` of `:id`, leaving a `d` behind |
| `Api.UserPathResolves` | shared/routes.ts:79 | filling the user path's `:id` with a number gives `/api/users/<n>`, with no `:` left |
| `Api.MessagePathResolves` | shared/routes.ts:113 | filling the message path's `:id` gives `/api/messages/<n>`, with no `:` left |
| `Api.PagePathResolves` | shared/routes.ts:137 | filling the page path's `:id` gives `/api/pages/<n>`, with no `:` left |
| `Api.EventLikePathResolves` | shared/routes.ts:169 | filling the like path's `:id` gives `/api/events/<n>/like`, with no `:` left |
| `Api.IdPathsResolve` | shared/routes.ts:79-169 | every `:id` path of the table resolves to a url with no placeholder |
| `ChatWidget.GetUser` | client/src/components/ChatWidget.tsx:52 | finds a loaded user with that id, or nothing exactly when the list is not loaded or has none |
| `ChatWidget.GetMessage` | client/src/components/ChatWidget.tsx:53 | finds a loaded message with that id, or nothing exactly when the list is not loaded or has none |
| `ChatWidget.CanDelete` | client/src/components/ChatWidget.tsx:55-66 | a delete button needs a logged-in user, and for a plain user it needs the user's own message less than fifteen minutes old |
| `ChatWidget.NoUserCannotDelete` | client/src/components/ChatWidget.tsx:56 | nobody logged in: no message can be deleted |
| `ChatWidget.StaffCanDeleteAll` | client/src/components/ChatWidget.tsx:57 | admins and moderators can delete every message |
| `ChatWidget.MemberDeleteRule` | client/src/components/ChatWidget.tsx:60-65 | a plain user can delete a message exactly when it is their own and less than 900000 ms old |
| `ChatWidget.DeleteWindowIsStrict` | client/src/components/ChatWidget.tsx:63 | one millisecond before fifteen minutes the user may delete; at exactly fifteen minutes they may not |
| `ChatWidget.ServerIgnoresDeleteWindow` | server/routes.ts:98-105 | the server lets a plain user delete a message that the widget would not let them delete |
| `ChatWidget.TrimStart` | client/src/components/ChatWidget.tsx:39 | strips exactly the leading white space: what remains is a suffix that starts with a non-space |
| `ChatWidget.TrimEnd` | client/src/components/ChatWidget.tsx:39 | strips exactly the trailing white space: what remains is a prefix that ends with a non-space |
| `ChatWidget.Trim` | client/src/components/ChatWidget.tsx:39 | `trim()` is the input with only its leading and trailing white space removed: a middle slice of the input, blank before and after it, that neither starts nor ends with white space |
| `ChatWidget.TrimEmptyIffBlank` | client/src/components/ChatWidget.tsx:39 | the trimmed input is empty exactly when the input is only white space |
| `ChatWidget.ReplyIdToSend` | client/src/components/ChatWidget.tsx:42 | the reply id is sent only when it is set and non-zero |
| `ChatWidget.ChatState.constructor` | client/src/components/ChatWidget.tsx:23-24 | the input starts empty with no reply target |
| `ChatWidget.ChatState.Type` | client/src/components/ChatWidget.tsx:199 | typing replaces the text and keeps the reply target |
| `ChatWidget.ChatState.StartReply` | client/src/components/ChatWidget.tsx:162 | the reply button sets the reply target and keeps the text |
| `ChatWidget.ChatState.CancelReply` | client/src/components/ChatWidget.tsx:192 | the close button clears the reply target and keeps the text |
| `ChatWidget.ChatState.Submit` | client/src/components/ChatWidget.tsx:37-50 | nothing is sent while the input is blank or nobody is logged in; otherwise the untrimmed text is sent with the reply id, and both are cleared only on success |
| `ChatWidget.ReplyContext` | client/src/components/ChatWidget.tsx:103-117 | a "replying to" line exists only for a reply id whose message is loaded, and its name is never empty |
| `ChatWidget.ReplyContextShown` | client/src/components/ChatWidget.tsx:103-114 | the "replying to" line appears exactly when the reply id is non-zero and its message is in the loaded list |
| `ChatWidget.ReplyContextName` | client/src/components/ChatWidget.tsx:104-117 | the line names the target's author when that user is loaded and has a name, and says "Silinmiş" otherwise |
| `ChatWidget.AuthorLabel` | client/src/components/ChatWidget.tsx:131 | the name over a message is the author's shown name when the author is loaded, and there is none otherwise |
| `ChatWidget.AuthorLabelAfterPatch` | client/src/components/ChatWidget.tsx:131 | once the author's row is patched with a non-empty display name, the author's messages show that name |
| `Navigation.SiteName` | client/src/components/Navigation.tsx:29 | the site name is the setting, or "ROYAL APP" when the setting is missing or empty |
| `Navigation.FetchedSetting` | client/src/hooks/use-data.ts:240-242 | the settings query yields the stored value on a 200 and `""` on any other answer |
| `Navigation.RenameSiteThenShow` | client/src/components/Navigation.tsx:25-29 | after an admin posts a site name, the header reads it back and shows it, or "ROYAL APP" when it is empty; a non-admin's post changes nothing and the header shows the earlier name or "ROYAL APP" |
| `Navigation.Join` | client/src/components/Navigation.tsx:32 | `join(" ")` starts with the first piece and puts a space after it when there is a second |
| `Navigation.Split` | client/src/components/Navigation.tsx:30 | `split(" ")` gives at least one piece, and no piece holds a space |
| `Navigation.SplitJoin` | client/src/components/Navigation.tsx:30-32 | joining the pieces with single spaces gives back the string that was split |
| `Navigation.JoinSplit` | client/src/components/Navigation.tsx:30-32 | splitting a join of space-free pieces gives the pieces back |
| `Navigation.LogoHalves` | client/src/components/Navigation.tsx:30-32 | the first word has no space; first word, space and rest give the name back when it has a space; without one the first word is the whole name and the rest is empty (`Navigation.FirstName` is `nameParts[0]`, `Navigation.RestName` is `nameParts.slice(1).join(" ")`) |
| `Navigation.VisiblePages` | client/src/components/Navigation.tsx:58 | the visible pages of the loaded list, every one of them and nothing else; none before the list has loaded |
| `Navigation.MenuItems` | client/src/components/Navigation.tsx:52-63 | the menu is the five fixed entries in order, then one `/page/<slug>` entry per visible page, in list order |
| `Navigation.MenuShowsVisiblePages` | client/src/components/Navigation.tsx:58-62 | every entry after the fixed ones links to a visible page, and every visible page has its entry |
| `Navigation.AdminPanelMatchesServer` | client/src/components/Navigation.tsx:96 | `Navigation.ShowsAdminPanel` (`user?.role === "admin"`, also at line 156) is false when no one is logged in, and true for a user exactly when the server lets that user through every admin-only route |
| `EmployeeOfMonth.Winners` | client/src/components/EmployeeOfMonth.tsx:11 | at most three winners, all flagged and from the list, forming a prefix of the flagged users; every flagged user wins when there are at most three; none before the list has loaded |
| `EmployeeOfMonth.PassedOverOnlyWhenFull` | client/src/components/EmployeeOfMonth.tsx:11 | a flagged user who is not a winner means the podium is full |
| `EmployeeOfMonth.WinnersInListOrder` | client/src/components/EmployeeOfMonth.tsx:11 | winners are placed in the order they appear in the list |
| `EmployeeOfMonth.Render` | client/src/components/EmployeeOfMonth.tsx:13-77 | nothing is rendered without winners; otherwise winner 0 takes first place, and winners 1 and 2 take second and third when present |
| `AnnouncementBar.ActiveAnnouncement` | client/src/components/AnnouncementBar.tsx:7 | the shown announcement is active and every one before it is inactive; nothing is shown exactly when the list is not loaded or has no active one |
| `AnnouncementBar.BarText` | client/src/components/AnnouncementBar.tsx:9-19 | the bar shows the content of that announcement, and is absent without one |
| `AnnouncementBar.BarShowsFirstStoredActive` | server/storage.ts:165-167 | given the server's active-only list, the bar shows the first active announcement in the model's fixed row order |
| `CustomPage.FindBySlug` | client/src/pages/CustomPage.tsx:11 | finds a loaded page with that slug, or nothing exactly when none has it |
| `CustomPage.Render` | client/src/pages/CustomPage.tsx:8-13 | loading is checked first; then a non-matching route renders nothing; "Page not found" appears exactly when no page has the slug; otherwise the page that the lookup by slug finds is shown |
| `CustomPage.HiddenPagesReachable` | client/src/pages/CustomPage.tsx:11 | visibility is not consulted: with unique slugs, every page, hidden or not, is shown at its slug |

## Left out

- Password hashing (scrypt with a random salt) is a foreign call with
  randomness. `ServerRoutes.SeedAdmin` takes the hash as a parameter.
- Sessions, Passport and the login, logout and current-user routes are left
  out. The session's user is an optional `Principal` with an id and a role.
- The database is not modelled. Tables are sequences, and the drizzle/Postgres
  layer, its SQL and its error objects are left out.
- Row order: the queries behind `getAllUsers`, `getPages`, `getPkBattles` and
  `getAnnouncements` have no `ORDER BY`, so the source leaves their order
  open. An `UPDATE` can also move a row in a table scan. The model instead
  keeps one fixed order: insertion order, with updated rows left in place.
  What depends on that order is therefore stated only for that one order:
  - `Storage.DatabaseStorage.GetAllUsers`, `GetPages`, `GetPkBattles`,
    `GetAnnouncements`, `UpdateUser` and `UpdatePage`;
  - `EmployeeOfMonth.Winners` (which three flagged users win);
  - `AnnouncementBar.BarShowsFirstStoredActive` (which active announcement
    shows);
  - the order of the page entries in `Navigation.MenuItems`.
- Concurrency is not modelled: requests run one after the other. The
  read-then-write of `likeEvent` is therefore treated as atomic.
- Body validation is not modelled field by field. A handler receives
  `Parsed(value)` or `Invalid`.
- The 400 body of the user routes records why the request failed, not the
  serialized error object.
- An error that escapes a handler is `Unhandled`. The status Express then
  sends is not modelled.
- `getSetting` and `setSetting` are called by the routes but not defined in
  server/storage.ts. The model gives `DatabaseStorage` a key-value map with
  the behaviour the routes rely on.
- Path ids are integers. `parseInt` of a non-numeric id (NaN) is not
  modelled.
- Parameter values are strings or integers. `String` of a non-integer number
  is not modelled.
- `Api.IntToString` writes every integer out in full digits. JavaScript's
  `String(n)` switches to exponent notation from 1e21 on, and ids are
  double-precision numbers. That rendering is not modelled.
- The `$` patterns that `replace` interprets in its replacement text are not
  modelled. Parameters are taken in the order given, which stands for the
  order of `Object.entries`.
- Nullable columns with defaults are modelled as plain values. The booleans
  are `isEmployeeOfMonth`, `isVisible`, `isDeleted` and `active`. The integers
  are `pages.order`, `pkBattles.playerCount` and `pkBattles.maxPlayers`. An
  omitted field gets the column default. An explicit `null` in an insert or
  a patch is not modelled. The database would store NULL. The source reads a
  NULL boolean as false, not as the default, and passes a NULL integer on as
  null. A page stored with a null `isVisible` is
  then hidden from the menu (`filter(p => p.isVisible)`), and an announcement
  stored with a null `active` is not listed (`eq(announcements.active,
  true)`).
- `likes` and `likedBy` stay optional, because `likeEvent` reads null
  explicitly.
- `createdAt` is always the time passed in at insert.
- `Storage.DatabaseStorage.GetMessages`: the order of messages with equal
  timestamps is not stated. This follows `ORDER BY`, which leaves it open.
  The same holds for `GetEvents` and equal dates.
- The fetching, caching and 3-second polling of client/src/hooks/use-data.ts
  are left out. The components receive the loaded lists, or nothing while
  loading.
- The widget's delete and like mutations are left out. Their server side is
  modelled by the handlers.
- Rendering is left out: layout, icons, animations, auto-scroll, date
  formatting, avatar and tag styling, and the theme toggle.
- The UI-only pages are not part of this model: Admin, Events, PkBattles,
  Login, Home and App.
