# gowiki page store and routing, in Dafny

A model of the core of a small Go wiki (`wiki.go`). It has pages stored one
file per title and four HTTP handlers behind a route pattern. It also has an
experimental quote store that keeps a quote's tags as one joined string.

Modules:

- `Wrappers`: `Option` (a lookup that may miss) and `Result` (a Go `(value, error)` pair).
- `Text`: the parts of Go's `strings` package the wiki uses. These are `HasSuffix`,
  `TrimSuffix`, `Index`, `Split` and `Join`, all over `seq<char>`.
- `Route`: the anchored pattern `^/(edit|save|view|index)/([a-zA-Z0-9]+)$`.
  `Matches` states the pattern's language declaratively. `ParseRoute` is a
  matcher that walks the path. Lemmas prove the two agree.
- `PageStore`: `Page`, and the directory `pages/` as a map from entry name to
  bytes. It covers `loadPage`, `Page.save` (with explicit read and write faults) and the
  mapping from directory entries back to titles.
- `Handlers`: `viewHandler`, `editHandler`, `saveHandler`, `indexHandler`,
  `getTitle` and `makeHandler`, each as a decision over a small `Response`
  datatype (`Redirect`, `Render`, `Error500`, `NotFound`). End-to-end lemmas
  follow the redirects between handlers.
- `Quotes`: tag encoding with `strings.Join(tags, ", ")` and decoding with
  `strings.Split(s, ", ")`, plus the quote-to-row conversion.

Inputs the program gets from outside are parameters:

- a possible write failure and a possible read failure (each an `Option<string>` error);
- the directory listing. `ioutil.ReadDir` returns the entries sorted by file name;
  the model accepts them in any order, so its results hold for the sorted order too;
- the form body, as bytes.

## Model

| member | source | states |
|---|---|---|
| Text.TrimSuffix | wiki.go:180 | when the name ends with the suffix, the result followed by the suffix is the name; otherwise the name is returned unchanged |
| Text.TrimAppendedSuffix | wiki.go:180 | trimming a suffix from `t + suffix` gives back exactly `t` |
| Text.IndexOf | wiki.go:105 | the result is -1 exactly when the separator does not occur; otherwise it is an occurrence with none before it |
| Text.Split | wiki.go:105 | splitting yields at least one piece, no piece contains the separator, and joining the pieces with the separator rebuilds the input |
| Text.SplitJoin | wiki.go:71 | for a separator that cannot overlap itself, splitting a joined non-empty list whose elements do not contain the separator gives the list back |
| Route.ActionOf | wiki.go:20 | a segment names an action exactly when it is one of `edit`, `save`, `view`, `index` |
| Route.ParseRoute | wiki.go:20 | an accepted path is `/` + action + `/` + title with the title a non-empty run of ASCII letters and digits |
| Route.ParseRouteComplete | wiki.go:20 | every `/<action>/<title>` with an alphanumeric title is accepted and yields that action and that title |
| Route.PathOfInjective | wiki.go:20 | a route path determines its action and its title |
| Route.ParseRouteAccepts | wiki.go:20 | the matcher accepts a path if and only if it is in the pattern's language |
| Route.NonTitleRejected | wiki.go:20 | a path whose title part is empty or has a character outside `[a-zA-Z0-9]` is rejected for every action |
| PageStore.EntryNameInjective | wiki.go:115 | different titles map to different entry names and different file names |
| PageStore.LoadPage | wiki.go:119-126 | a page loads exactly when its `.txt` entry exists and reading it does not fail, and then carries the requested title and the entry's bytes |
| PageStore.SavePage | wiki.go:114-117 | a failed write returns its error; a successful one stores exactly the body in the page's entry, adds no other entry, and leaves the contents of every other entry unchanged |
| PageStore.SaveLoadRoundTrip | wiki.go:114-126 | saving body B under T and then loading T gives the page (T, B) |
| PageStore.SaveOverwrites | wiki.go:114-117 | a second save to the same title leaves the directory as if only the second save had happened |
| PageStore.PageTitleOfEntry | wiki.go:178-182 | stripping `.txt` from a saved page's entry name gives back its title |
| PageStore.SaveKeepsOnlyPageFiles | wiki.go:114-117 | if every entry is a `.txt` file before a save, the same holds after it |
| PageStore.IndexListsPages | wiki.go:178-182 | if the directory holds only `.txt` files, the listed titles are exactly the titles that load, each once |
| PageStore.ForeignEntryRepeatsTitle | wiki.go:180 | an entry `a` next to `a.txt` is listed under the same title `a`, so that condition is needed |
| Handlers.ViewHandler | wiki.go:140-148 | a page that is missing or cannot be read gives a 302 redirect to `/edit/<title>`; a readable page renders `view` with the stored page; the directory is untouched |
| Handlers.EditHandler | wiki.go:150-156 | always renders `edit`: with the stored page when it can be read, otherwise with an empty page with the requested title; the directory is untouched |
| Handlers.SaveHandler | wiki.go:158-168 | on success the page loads back with exactly the submitted body, no other entry is added or changed, and the reply is a 302 to `/view/<title>`; on write failure the reply is a 500 with the error and nothing changes |
| Handlers.IndexHandler | wiki.go:170-187 | a failed listing is a 500; otherwise `index` is rendered with one title per entry, in entry order, each the entry with `.txt` trimmed |
| Handlers.GetTitle | wiki.go:189-196 | an accepted path gives its title and no error; a rejected one gives `""`, the error "Invalid title" and a 404 |
| Handlers.MakeHandler | wiki.go:198-208 | a rejected path is a 404 and the directory is unchanged whatever the handler; an accepted path runs the handler on the path's title |
| Handlers.RejectedTitleIsNotFound | wiki.go:198-208 | every wrapped handler answers a path with a non-alphanumeric or empty title with a 404 |
| Handlers.SaveThenView | wiki.go:140-168 | saving through `/save/<t>` redirects to `/view/<t>`, and following that redirect renders the saved body |
| Handlers.MissingPageLeadsToEdit | wiki.go:140-156 | viewing a missing page redirects to `/edit/<t>`, and that path renders the edit form of an empty page titled `t` |
| Handlers.FailedSaveChangesNothing | wiki.go:158-168 | a save whose write fails answers 500 and leaves the directory as it was |
| Handlers.SaveThenIndex | wiki.go:158-182 | after a successful save into a directory of page files, the index lists the saved title and every title that loaded before, each once, and nothing else |
| Quotes.TagSepUnbordered | wiki.go:71 | the separator ", " cannot overlap itself |
| Quotes.TagsRoundTrip | wiki.go:105 | decoding the encoding of a non-empty tag list, none containing ", ", gives the same tags |
| Quotes.StoredTagsRoundTrip | wiki.go:89 | any stored tag string decodes to at least one tag, and re-encoding gives back the same string |
| Quotes.QuoteRoundTrip | wiki.go:66-107 | a quote with storable tags is unchanged by being written as a row and read back |
| Quotes.EmptyTagsReadBackAsOneEmptyTag | wiki.go:105 | the empty tag list is stored as "" and read back as one empty tag |
| Quotes.SeparatorInTagSplitsIt | wiki.go:105 | the tag `a, b` is read back as two tags `a` and `b` |

The model follows the code where it may surprise a reader:

- The index shows each saved title once only when the directory holds only
  `.txt` files. Other entries are listed untrimmed and can repeat a title
  (`ForeignEntryRepeatsTitle`).
- `loadPage` reports every read error the same way as a missing file. The view
  handler then redirects to the edit form, and the edit handler shows an empty page.
- Tags are joined with ", " (comma and space).
- `makeHandler` passes the title on whatever the action in the path is. Only
  the server's prefix registration picks the handler.

## Left out

- SQLite access is not modelled. This covers `sqliteDbInit`, `newQuote`, `printQuotes`,
  the statements in `Quote.save` and `loadQuoteId`, and `checkErr`'s `log.Fatal`.
  It is database I/O and process exit. Only the tag join/split and the row-to-quote
  conversion are modelled. The malformed UPDATE statement (wiki.go:68) is not modelled.
- Template loading and execution (`template.ParseFiles`, `Execute`) is a foreign library
  that reads files. A render is the opaque outcome `Render(template, data)`.
- Handlers.ViewHandler: a template that fails to parse or execute is answered
  with a 500 by `renderTemplate` (wiki.go:128-138). The model always renders.
- Handlers.EditHandler: same template-failure 500 left out as for the view handler.
- Handlers.IndexHandler: the ignored template parse error (wiki.go:184-186) is
  not modelled.
- The HTTP server is not modelled. This covers `main`, the `http.HandleFunc` prefix
  registrations and `ListenAndServe`. It also covers URL decoding, the request method,
  and `r.FormValue` parsing. The form body is an input byte sequence.
- Real file system behaviour is not modelled: permissions (0600), partial writes,
  and subdirectories of `pages/`. A failed write leaves the directory unchanged.
  `ioutil.ReadDir` sorts the entries by name; the model takes any duplicate-free
  enumeration of the entries, which includes the sorted one.
- Text.Split and Text.IndexOf: only non-empty separators are modelled. An empty
  separator splits into UTF-8 sequences in Go. The wiki only splits on ", ".
- Go strings are byte strings and the pattern matches UTF-8 runes. The model
  works on `seq<char>` for paths, titles and tags, and on bytes for page bodies.
- Concurrent requests and last-writer-wins races between saves are not modelled.
