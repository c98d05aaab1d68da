/** The per-request decisions of wiki.go: the view, edit, save and index
    handlers, `getTitle`, and `makeHandler`, which guards a handler with the
    route pattern. A handler is a function from the page directory and a title
    to the response it writes and the directory it leaves behind. Template
    rendering is the opaque outcome `Render(template, data)`.
 */
module Handlers {
  import opened Wrappers
  import opened Route
  import opened PageStore

  /** http.StatusFound */
  const StatusFound := 302

  const InvalidTitle := "Invalid title"

  /** What a template is filled with: one page, or the index's list of titles. */
  datatype ViewData = PageData(page: Page) | TitleList(titles: seq<string>)

  datatype Response =
    | Redirect(location: string, code: int)
    | Render(template: string, data: ViewData)
    | Error500(message: string)
    | NotFound

  datatype Outcome = Outcome(response: Response, dir: Dir)

  /** viewHandler: shows the page, or sends the browser to its edit form when
      loading it fails, because the page does not exist yet or its file cannot
      be read. */
  function ViewHandler(dir: Dir, title: string, readFault: Option<string>): (o: Outcome)
    ensures o.dir == dir
    ensures EntryName(title) !in dir || readFault.Some? ==>
              o.response == Redirect("/edit/" + title, StatusFound)
    ensures EntryName(title) in dir && readFault.None? ==>
              o.response == Render("view", PageData(Page(title, dir[EntryName(title)])))
  {
    match LoadPage(dir, title, readFault)
    case None => Outcome(Redirect("/edit/" + title, StatusFound), dir)
    case Some(p) => Outcome(Render("view", PageData(p)), dir)
  }

  /** editHandler: shows the edit form for the stored page, or for an empty page
      with the requested title when loading it fails. */
  function EditHandler(dir: Dir, title: string, readFault: Option<string>): (o: Outcome)
    ensures o.dir == dir
    ensures o.response.Render? && o.response.template == "edit"
    ensures EntryName(title) !in dir || readFault.Some? ==>
              o.response.data == PageData(Page(title, []))
    ensures EntryName(title) in dir && readFault.None? ==>
              o.response.data == PageData(Page(title, dir[EntryName(title)]))
  {
    var p := LoadPage(dir, title, readFault).GetOr(Page(title, []));
    Outcome(Render("edit", PageData(p)), dir)
  }

  /** saveHandler: stores exactly the submitted body under the title, then
      redirects to the page's view; a failed write is a 500 and no redirect.
      No entry other than the page's own is added or changed. */
  function SaveHandler(dir: Dir, title: string, body: seq<byte>, fault: Option<string>): (o: Outcome)
    ensures fault.None? ==> o.response == Redirect("/view/" + title, StatusFound)
    ensures fault.None? ==> o.dir.Keys == dir.Keys + {EntryName(title)}
    ensures fault.None? ==> LoadPage(o.dir, title, None) == Some(Page(title, body))
    ensures fault.None? ==> forall n :: n in dir && n != EntryName(title) ==> o.dir[n] == dir[n]
    ensures fault.Some? ==> o == Outcome(Error500(fault.value), dir)
  {
    match SavePage(dir, Page(title, body), fault)
    case Err(e) => Outcome(Error500(e), dir)
    case Ok(d) => Outcome(Redirect("/view/" + title, StatusFound), d)
  }

  /** indexHandler: lists the page directory and renders the index with one
      title per entry, in listing order; a failed listing is a 500. */
  method IndexHandler(listing: Result<seq<string>>) returns (resp: Response)
    ensures listing.Err? ==> resp == Error500(listing.message)
    ensures listing.Ok? ==> resp.Render? && resp.template == "index" && resp.data.TitleList?
    ensures listing.Ok? ==> TitlesOf(listing.value, resp.data.titles)
  {
    if listing.Err? {
      return Error500(listing.message);
    }
    var entries := listing.value;
    var names: seq<string> := [];
    var i := 0;
    while i < |entries|
      invariant 0 <= i <= |entries|
      invariant TitlesOf(entries[..i], names)
    {
      names := names + [PageTitle(entries[i])];
      i := i + 1;
    }
    assert entries[..i] == entries;
    resp := Render("index", TitleList(names));
  }

  /** What getTitle hands back: the title, an error, and whether it already
      answered the request with a 404. */
  datatype TitleResult = TitleResult(title: string, err: Option<string>, wroteNotFound: bool)

  /** getTitle: the title of an accepted path; for a rejected path the empty
      title, the error "Invalid title", and a 404 written to the client. */
  function GetTitle(path: string): (r: TitleResult)
    ensures Matches(path) ==> r.err.None? && !r.wroteNotFound
    ensures forall a, t :: path == PathOf(a, t) && IsTitle(t) ==> r.title == t
    ensures !Matches(path) ==> r == TitleResult("", Some(InvalidTitle), true)
  {
    ParseRouteAccepts(path);
    match ParseRoute(path)
    case None => TitleResult("", Some(InvalidTitle), true)
    case Some(route) =>
      forall a, t | path == PathOf(a, t) && IsTitle(t) ensures route.title == t {
        PathOfInjective(a, t, route.action, route.title);
      }
      TitleResult(route.title, None, false)
  }

  /** makeHandler(fn) serving a request for `path`: a rejected path gets a 404
      and `fn` is not run, so the directory is untouched; an accepted path runs
      `fn` on the title it carries, whatever its action. */
  function MakeHandler(fn: (Dir, string) -> Outcome, dir: Dir, path: string): (o: Outcome)
    ensures !Matches(path) ==> o == Outcome(NotFound, dir)
    ensures forall a, t :: path == PathOf(a, t) && IsTitle(t) ==> o == fn(dir, t)
  {
    var r := GetTitle(path);
    if r.err.Some? then Outcome(NotFound, dir) else fn(dir, r.title)
  }

  /** The handler `main` registers for `/view/`, `/edit/` and `/save/`; the
      view and edit handlers receive the outcome of reading the page's file,
      the save handler the form body and the outcome of the write. */
  function Viewer(readFault: Option<string>): (Dir, string) -> Outcome {
    (d, t) => ViewHandler(d, t, readFault)
  }

  function Editor(readFault: Option<string>): (Dir, string) -> Outcome {
    (d, t) => EditHandler(d, t, readFault)
  }

  function Saver(body: seq<byte>, fault: Option<string>): (Dir, string) -> Outcome {
    (d, t) => SaveHandler(d, t, body, fault)
  }

  /** A path with a character outside `[a-zA-Z0-9]` in its title, or an empty
      title, is answered with a 404 by every wrapped handler. */
  lemma RejectedTitleIsNotFound(fn: (Dir, string) -> Outcome, dir: Dir, a: Action, t: string)
    requires !IsTitle(t)
    ensures MakeHandler(fn, dir, PathOf(a, t)) == Outcome(NotFound, dir)
  {
  }

  /** Saving through `/save/<t>` and then following the redirect shows the
      saved body. */
  lemma SaveThenView(dir: Dir, t: string, body: seq<byte>)
    requires IsTitle(t)
    ensures var saved := MakeHandler(Saver(body, None), dir, PathOf(Save, t));
            && saved.response == Redirect(PathOf(View, t), StatusFound)
            && MakeHandler(Viewer(None), saved.dir, saved.response.location).response
               == Render("view", PageData(Page(t, body)))
  {
    var saved := MakeHandler(Saver(body, None), dir, PathOf(Save, t));
    assert saved == SaveHandler(dir, t, body, None);
    assert "/view/" + t == PathOf(View, t);
    assert MakeHandler(Viewer(None), saved.dir, PathOf(View, t)) == ViewHandler(saved.dir, t, None);
  }

  /** Viewing a page that does not exist leads to the edit form of an empty
      page with the same title. */
  lemma MissingPageLeadsToEdit(dir: Dir, t: string)
    requires IsTitle(t) && EntryName(t) !in dir
    ensures var viewed := MakeHandler(Viewer(None), dir, PathOf(View, t));
            && viewed == Outcome(Redirect(PathOf(Edit, t), StatusFound), dir)
            && MakeHandler(Editor(None), dir, viewed.response.location)
               == Outcome(Render("edit", PageData(Page(t, []))), dir)
  {
  }

  /** A failed save through `/save/<t>` leaves every page as it was. */
  lemma FailedSaveChangesNothing(dir: Dir, t: string, body: seq<byte>, e: string)
    requires IsTitle(t)
    ensures MakeHandler(Saver(body, Some(e)), dir, PathOf(Save, t)) == Outcome(Error500(e), dir)
  {
  }

  /** A successful save through `/save/<t>` keeps the directory free of
      entries other than page files, so the index afterwards lists exactly the
      pages that load, the saved one among them, each once. */
  lemma SaveThenIndex(dir: Dir, t: string, body: seq<byte>, entries: seq<string>, titles: seq<string>)
    requires IsTitle(t) && OnlyPageFiles(dir)
    requires var saved := MakeHandler(Saver(body, None), dir, PathOf(Save, t));
             ListingOf(entries, saved.dir) && TitlesOf(entries, titles)
    ensures t in titles
    ensures forall u :: u in titles <==> u == t || LoadPage(dir, u, None).Some?
    ensures forall i, j :: 0 <= i < j < |titles| ==> titles[i] != titles[j]
  {
    var saved := MakeHandler(Saver(body, None), dir, PathOf(Save, t));
    assert saved == SaveHandler(dir, t, body, None);
    SaveKeepsOnlyPageFiles(dir, Page(t, body));
    IndexListsPages(saved.dir, entries, titles);
  }
}
