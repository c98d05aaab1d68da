/** Page persistence (wiki.go `Page.save`, `loadPage`, and the directory
    listing of `indexHandler`). The directory `pages/` is a map from entry
    name to file contents; the page titled `t` is the entry `t.txt`, that is
    the file `pages/t.txt`. A failing read or write is an explicit fault parameter.
 */
module PageStore {
  import opened Wrappers
  import opened Text

  newtype byte = b: int | 0 <= b < 256

  datatype Page = Page(title: string, body: seq<byte>)

  /** The contents of the directory `pages/`, by entry name. */
  type Dir = map<string, seq<byte>>

  const PagesDir := "pages/"
  const PageExt := ".txt"

  /** The directory entry that holds the page titled `title`. */
  function EntryName(title: string): string {
    title + PageExt
  }

  /** The file name both `Page.save` and `loadPage` build. */
  function FileName(title: string): string {
    PagesDir + EntryName(title)
  }

  /** Different titles are stored in different files. */
  lemma EntryNameInjective(t: string, u: string)
    ensures EntryName(t) == EntryName(u) ==> t == u
    ensures FileName(t) == FileName(u) ==> t == u
  {
    if EntryName(t) == EntryName(u) {
      assert t == EntryName(t)[..|t|];
    }
    if FileName(t) == FileName(u) {
      assert EntryName(t) == FileName(t)[|PagesDir|..];
      assert EntryName(u) == FileName(u)[|PagesDir|..];
      assert t == EntryName(t)[..|t|];
    }
  }

  /** loadPage: reads the page's file. A missing file is a miss, and so is a
      file that exists but cannot be read (`readFault`): the caller only sees
      that an error came back. */
  function LoadPage(dir: Dir, title: string, readFault: Option<string>): (r: Option<Page>)
    ensures r.Some? <==> EntryName(title) in dir && readFault.None?
    ensures r.Some? ==> r.value.title == title && r.value.body == dir[EntryName(title)]
  {
    var name := EntryName(title);
    if name in dir && readFault.None? then Some(Page(title, dir[name])) else None
  }

  /** Page.save: writes the body to the page's file, replacing what was there.
      A write that fails reports its error and leaves the directory as it was.
      Only the saved page's entry changes. */
  function SavePage(dir: Dir, p: Page, fault: Option<string>): (r: Result<Dir>)
    ensures fault.Some? ==> r == Err(fault.value)
    ensures fault.None? ==> r.Ok? && r.value.Keys == dir.Keys + {EntryName(p.title)}
    ensures fault.None? ==> r.value[EntryName(p.title)] == p.body
    ensures fault.None? ==> forall n :: n in dir && n != EntryName(p.title) ==> r.value[n] == dir[n]
    ensures fault.None? ==> LoadPage(r.value, p.title, None) == Some(p)
    ensures fault.None? ==> forall t :: t != p.title ==> LoadPage(r.value, t, None) == LoadPage(dir, t, None)
  {
    match fault
    case Some(e) => Err(e)
    case None =>
      forall t ensures EntryName(t) == EntryName(p.title) ==> t == p.title {
        EntryNameInjective(t, p.title);
      }
      Ok(dir[EntryName(p.title) := p.body])
  }

  /** Saving `body` under `title` and then loading `title` gives back the page
      with that title and that body. */
  lemma SaveLoadRoundTrip(dir: Dir, title: string, body: seq<byte>)
    ensures SavePage(dir, Page(title, body), None).Ok?
    ensures LoadPage(SavePage(dir, Page(title, body), None).value, title, None) == Some(Page(title, body))
  {
  }

  /** A second save to the same title overwrites the first: the directory is as
      if only the second save had happened. */
  lemma SaveOverwrites(dir: Dir, title: string, first: seq<byte>, second: seq<byte>)
    ensures var d1 := SavePage(dir, Page(title, first), None).value;
            SavePage(d1, Page(title, second), None) == SavePage(dir, Page(title, second), None)
  {
    var name := EntryName(title);
    assert dir[name := first][name := second] == dir[name := second];
  }

  /** The title a directory entry is listed under: the entry name with `.txt` trimmed. */
  function PageTitle(entry: string): string {
    TrimSuffix(entry, PageExt)
  }

  /** Trimming the extension from a saved page's entry gives back its title. */
  lemma PageTitleOfEntry(title: string)
    ensures PageTitle(EntryName(title)) == title
  {
  }

  /** `titles` lists the entries one for one, in order, each with `.txt` trimmed. */
  predicate TitlesOf(entries: seq<string>, titles: seq<string>) {
    |titles| == |entries| && forall i :: 0 <= i < |entries| ==> titles[i] == PageTitle(entries[i])
  }

  /** `entries` is a listing of `dir`: every entry exactly once, in some order. */
  ghost predicate ListingOf(entries: seq<string>, dir: Dir) {
    && (forall i, j :: 0 <= i < j < |entries| ==> entries[i] != entries[j])
    && (forall n :: n in entries <==> n in dir)
  }

  /** Every entry of the directory is a page file `<title>.txt`. */
  ghost predicate OnlyPageFiles(dir: Dir) {
    forall n :: n in dir ==> HasSuffix(n, PageExt)
  }

  /** Saving keeps the directory free of entries other than page files. */
  lemma SaveKeepsOnlyPageFiles(dir: Dir, p: Page)
    requires OnlyPageFiles(dir)
    ensures SavePage(dir, p, None).Ok?
    ensures OnlyPageFiles(SavePage(dir, p, None).value)
  {
  }

  /** When the directory holds only page files, the index shows exactly the
      titles that load, each once. */
  lemma IndexListsPages(dir: Dir, entries: seq<string>, titles: seq<string>)
    requires ListingOf(entries, dir) && OnlyPageFiles(dir)
    requires TitlesOf(entries, titles)
    ensures forall t :: t in titles <==> LoadPage(dir, t, None).Some?
    ensures forall i, j :: 0 <= i < j < |titles| ==> titles[i] != titles[j]
  {
  }

  /** Without the page-files-only condition the listing can repeat a title:
      an entry `a` next to `a.txt` is listed as `a` twice. */
  lemma ForeignEntryRepeatsTitle()
    ensures PageTitle("a") == PageTitle("a.txt") == "a"
  {
  }
}
