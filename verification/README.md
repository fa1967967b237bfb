# A verified model of the gowiki request core

This project models the core of a small Go wiki server (`main.go`). Clients
view, edit, save and search text pages kept in a MySQL table `pages(id,
title, body)`. The model covers three parts:

- **Path router** (`router.dfy`, module `Router`). The pattern
  `^/(edit|save|view|search)/([a-zA-Z0-9]+)$` and the way `makeHandler`
  applies it are written as a hand-made decoder, `Route`. A path decodes
  exactly when it is `"/" + action + "/" + token` and the token is one or
  more ASCII letters or digits. The handler then receives exactly that
  token. Go's `$` anchors at the end of the text, so a trailing newline is
  rejected, and so are an extra segment, an empty token, a space or an
  unknown action.
- **Page store** (`pages.dfy`, module `Pages`; `store.dfy`, module
  `PageStore`). The shared `db` handle is a class `Store`. It holds the
  table as a sequence of rows in storage order, plus the auto-increment
  counter. Its invariant is that titles are unique and ids are positive,
  increasing and below the counter. The SQL statements become functions
  over the rows:
  - the lookup by title is `Find`;
  - `UPDATE ... WHERE title=?` is `SetBody`;
  - the `LIKE '%text%'` search is `Matching`.

  `Store.Save` performs the SELECT-then-INSERT-or-UPDATE of `Page.save`.
  `Store.Load` is `loadPage`. `Store.Search` is the scan loop of `search`.
- **Action dispatcher** (`handlers.dfy`, module `Handlers`). Each handler
  gives the sequence of response calls it makes, in order. A call is
  `Redirect(path)` (http.Redirect), `Render(template, page)`, `NotFound`
  (http.NotFound) or `InternalError` (http.Error with status 500). `Serve`
  is one request: route the path, then run the handler for the action.

The database driver is not modelled. Whether a statement fails is an input
to each store operation: `SaveFaults`, the `fails` flag of `Load`, and
`SearchFault`. This makes every error path of the source reachable. The
model keeps these quirks of the code:

- `viewHandler` and `editHandler` treat any load error as a missing page.
  A driver failure also redirects to the edit page, or renders an empty
  edit form.
- `saveHandler` has no `return` after calling http.Error (main.go:167-170).
  After a failed save it therefore calls http.Error and then http.Redirect,
  and its call sequence is `[InternalError, Redirect("/view/" + title)]`.
- `searchHandler` ignores the title in the path. It swallows a search
  error and renders an empty list of links.
- `Page.save` takes the INSERT branch only when the lookup reports "no
  rows". Any other lookup error takes the UPDATE branch. For a title with
  no row, that UPDATE matches nothing, yet `save` returns no error. The
  write is lost silently. `Store.Save` states this case, where the table
  becomes `SetBody(old rows, ...)` and SetBody leaves an absent title
  untouched. The round trip save-then-load is therefore stated for a save
  whose lookup did not fail.

## Model

| member | source | states |
|---|---|---|
| Router.ParseAction | main.go:35 | the keyword decodes to an action exactly when it is one of edit, save, view, search, spelled exactly |
| Router.Route | main.go:127-132 | a decoded path is exactly "/" + action + "/" + token, and the token is a non-empty string of ASCII letters and digits |
| Router.RouteComplete | main.go:35 | every action with a valid token is accepted under its own path, and its handler receives exactly that token |
| Router.RouteIff | main.go:35 | both directions: a path decodes to (action, token) iff it is "/" + action + "/" + token with a valid token |
| Router.RejectsBadToken | main.go:127-131 | a known action followed by an empty token, an extra "/" segment, a space or any non-alphanumeric character yields no request (404) |
| Router.RejectsUnknownAction | main.go:127-131 | a keyword that names no action, with or without a slash inside it, yields no request, whatever follows |
| Router.RejectsTrailingNewline | main.go:35 | `$` anchors at end of text: a path with a trailing newline never decodes |
| Router.AcceptsExample | main.go:35 | /view/Abc123 decodes to (view, "Abc123") |
| Router.RejectsSpaceExample | main.go:35 | /view/Abc 123 does not decode |
| Router.RejectsUnknownExample | main.go:35 | /foo/Abc does not decode |
| Router.RejectsEmptyExample | main.go:35 | /view/ does not decode |
| Router.RejectsExtraSegmentExample | main.go:35 | /view/Abc/extra does not decode |
| Pages.Find | main.go:93-94 | the lookup by exact title finds the first row with that title, and finds none exactly when no row carries it |
| Pages.FindIsTheRow | main.go:44 | under unique titles the lookup finds the one row with that title |
| Pages.SetBody | main.go:50 | the UPDATE gives every row with the title the new body; ids, titles and all other rows are unchanged |
| Pages.Upsert | main.go:44-51 | a save of an absent title appends one row with the next id; otherwise only the body of the matching row changes and its id is kept |
| Pages.SetBodyKeepsWellFormed | main.go:50 | an UPDATE keeps titles unique and ids fresh and increasing |
| Pages.UpsertKeepsWellFormed | main.go:44-51 | a fault-free save keeps titles unique, and a new row gets a fresh id above all others |
| Pages.UpsertRoundTrip | main.go:44-52 | after a save of (T, B) a row titled T exists, and every row titled T holds B |
| Pages.UpsertTwice | main.go:44-51 | saving T with B1 then B2 leaves the same table as saving T once with B2 |
| Pages.SavedTwiceLeavesOneRow | main.go:44-51 | saving T twice leaves exactly one row for T, holding the latest body |
| Pages.ContainsIff | main.go:62 | containment (the reading of `LIKE '%text%'`) agrees with "text occurs at some position" |
| Pages.Matching | main.go:62-64 | the search query returns exactly the rows whose title or body contains the text |
| Pages.MatchingInTableOrder | main.go:64-76 | the search result keeps table order: its ids still increase |
| Pages.MatchingEverything | main.go:62 | an empty search text matches every row: the whole table comes back |
| PageStore.SearchResultsAreTheHits | main.go:70-76 | the scanned result list holds a page for every matching row and only pages of matching rows, without links |
| PageStore.Store.Load | main.go:84-101 | fails exactly on a driver failure or a missing title (NoSuchPage for the latter); on success the page has the requested title, the stored body, id 0 and no links |
| PageStore.Store.Save | main.go:37-53 | reports an error exactly when the write fails, and then changes nothing; a fault-free save is the upsert with the next id; after a failed lookup it is the UPDATE; the table invariant is kept |
| PageStore.Store.Search | main.go:55-81 | succeeds unless the query fails, a scan fails at a returned row, or the iteration fails; on success, one scanned page per matching row in table order; on failure, no partial list |
| Handlers.ViewHandler | main.go:136-153 | any load failure, and only that, redirects to /edit/ + title; otherwise it renders "view" with the stored body under the requested title |
| Handlers.EditHandler | main.go:173-187 | any load failure renders "edit" with an empty page of that title; otherwise it renders "edit" with the stored page |
| Handlers.SaveHandler | main.go:155-171 | always ends with a redirect to /view/ + title, preceded by a 500 exactly when the save failed; the table and the id counter change as the save says (unchanged on a failed write, the upsert with the next id, or the UPDATE with the counter kept) |
| Handlers.Titles | main.go:205-208 | the link list holds the titles of the results, one per result, in order |
| Handlers.SearchResultPage | main.go:198-209 | the search page is titled "search", and its links are the titles of the matching rows in table order, or none when the search failed |
| Handlers.SearchHandler | main.go:189-211 | renders "search" with that page; the title from the path plays no part |
| Handlers.Serve | main.go:126-133 | a path that does not decode gives 404 and runs no handler; otherwise the decoded action's handler runs on the decoded token; only save changes the store, and its table and id counter change as SaveHandler states |
| Handlers.ViewUnsavedTitle | main.go:145-150 | viewing a title never saved redirects to /edit/ + title and leaves the store unchanged |
| Handlers.SaveThenView | main.go:164-170 | after saving body B under T, a view of T renders "view" with title T and body B |

## Left out

- `main` is not modelled: reading config.json, decoding it, building the MySQL DSN, connecting, pinging, registering the four prefixes and listening (main.go:213-253). `Serve` dispatches on the decoded action. The server instead chooses the handler by the mux prefix and ignores the action group `m[1]`. The two agree on every path that decodes.
- Go's `ServeMux` cleans paths before dispatch. It redirects, for example, `/view//x` or `/view` to a cleaned path. This is transport behaviour and is not modelled. `Route` sees the path as it reaches `makeHandler`.
- Templates are not modelled: parsing them and rendering them (main.go:34, main.go:103-116). A render is a `Render(template, page)` reply, not output text. A render failure that produces a 500 is not modelled.
- SQL text, the driver and `LIKE` details are not modelled. The model reads `LIKE '%text%'` as plain, case-sensitive substring containment. Under MySQL's default collation the match is case-insensitive, and `%` and `_` inside the text act as wildcards.
- Find, SetBody and Upsert: title equality in `WHERE title = ?` (main.go:44, main.go:50, main.go:93) is modelled as exact, case-sensitive equality, as under a binary collation. Under MySQL's default case-insensitive collation, "Abc" and "abc" would be the same key, and a save of one would update the other's row.
- SaveHandler and Serve: the reply sequence records every response call the handler makes, not what the client receives. After http.Error has written the 500 status, the following http.Redirect's status write is superfluous and its Location header comes too late, so the client sees only the 500. The model does not capture the HTTP response writer.
- The table schema is not part of this source. The model assumes an auto-increment id, which is the counter `nextId` starting at 1. It assumes that rows come back in insertion order.
- Concurrency is not modelled. The check-then-insert race between concurrent saves of a new title is absent because the model serves one request at a time.
- `Page.Body` is a `[]byte` in Go. The model keeps it as text, so the conversion `[]byte(body)` of the form value is the identity.
- Error message texts and the `fmt.Printf` log line in `searchHandler` are not modelled. Errors are `NoSuchPage(title)` or `DriverFailure`.
- The unused `list_body` in `searchHandler` (main.go:204, main.go:207) is not modelled.
- A missing "body" form field is not modelled separately: `FormValue` returns "" for it, which is the value passed in.
