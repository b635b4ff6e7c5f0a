// The request handlers of the encyclopedia: `index`, `entry`, `search`,
// `new_page`, `edit_page` and `random_entry`, as methods over a `Store`.
// A request carries its method, its query parameters and its form fields;
// a response says which page is rendered with which values, where the user
// is redirected, or which exception escapes the handler.

module Views {
  import opened Wrappers
  import opened PyStr
  import opened Entries
  import opened Util

  /** An HTTP request: POST or not, `request.GET` and `request.POST`. */
  datatype Request = Request(post: bool, args: map<string, string>, form: map<string, string>)

  /** What a handler produces. `EntryPage.body` is the Markdown source that
      is handed to the renderer; `Unhandled` names the Python exception the
      handler lets escape. */
  datatype Response =
    | IndexPage(entries: seq<string>)
    | EntryPage(title: string, body: string)
    | SearchResults(query: string, results: seq<string>)
    | NewPageForm
    | EditForm(title: string, content: string)
    | ErrorPage(message: string)
    | Redirect(target: string)
    | Unhandled(exception: string)

  const NotFound: string := "The requested page was not found."
  const AlreadyExists: string := "An entry with this title already exists."

  /** `d.get(key, default)` on a request dictionary. */
  function Field(d: map<string, string>, key: string, default: string): (r: string)
    ensures key in d ==> r == d[key]
    ensures key !in d ==> r == default
  {
    if key in d then d[key] else default
  }

  /** `util.get_entry(title)` read off the store's contents. */
  function Lookup(files: map<string, string>, title: string): (r: Option<string>)
    ensures r.Some? <==> title in files
    ensures r.Some? ==> r.value == files[title]
  {
    if title in files then Some(files[title]) else None
  }

  /** The page `entry` renders for what `get_entry` returned: the not-found
      error, the `ValueError` of unpacking a split without a line feed, or
      the cleaned title with the stripped body. */
  function EntryView(text: Option<string>): (r: Response)
    ensures r.ErrorPage? <==> text.None?
    ensures r.ErrorPage? ==> r.message == NotFound
    ensures r.Unhandled? <==> text.Some? && '\n' !in text.value
    ensures r.EntryPage? <==> text.Some? && '\n' in text.value
    ensures r.EntryPage? ==> '\n' !in r.title
    ensures r.EntryPage? && r.body != [] ==> r.body[0] !in Whitespace && r.body[|r.body| - 1] !in Whitespace
  {
    match text
    case None => ErrorPage(NotFound)
    case Some(stored) =>
      match SplitHeader(stored)
      case None => Unhandled("ValueError")
      case Some((title, body)) => EntryPage(title, Strip(body))
  }

  /** An entry saved under a stable title is shown with that title and with
      exactly the stripped content. */
  lemma EntryViewOfSaved(t: string, c: string)
    requires IsStableTitle(t)
    ensures EntryView(Some(Serialize(t, c))) == EntryPage(t, Strip(c))
  {
    HeaderRoundTrip(t, c);
    StripLeadingSpace("\n" + c);
    assert ("\n" + c)[1..] == c;
  }

  /** `index`: the list of every title. */
  method Index(store: Store) returns (r: Response)
    requires store.Valid()
    ensures r.IndexPage? && r.entries == store.titles
  {
    var entries := store.ListEntries();
    r := IndexPage(entries);
  }

  /** `entry(title)`: reads the store and renders the entry view. */
  method Entry(store: Store, title: string) returns (r: Response)
    ensures r == EntryView(Lookup(store.files, title))
  {
    var text := store.GetEntry(title);
    r := EntryView(text);
  }

  /** `search`: a query equal to a title (case-sensitively) shows that
      entry; otherwise the results are exactly the titles containing the
      query, ignoring case, in list order. */
  method Search(store: Store, req: Request) returns (r: Response)
    requires store.Valid()
    ensures var q := Field(req.args, "q", "");
      q in store.titles ==> r == EntryView(Lookup(store.files, q))
    ensures var q := Field(req.args, "q", "");
      q !in store.titles ==>
        r.SearchResults? && r.query == q &&
        (forall t :: t in r.results <==> t in store.titles && Contains(Lower(t), Lower(q))) &&
        IsSubsequence(r.results, store.titles)
    ensures Field(req.args, "q", "") == [] && [] !in store.titles ==> r == SearchResults([], store.titles)
  {
    var query := Field(req.args, "q", "");
    var entries := store.ListEntries();
    if query in entries {
      r := Entry(store, query);
    } else {
      var results := SearchMatches(entries, query);
      forall t ensures t in results <==> t in entries && Contains(Lower(t), Lower(query)) {
        SearchMatchesMembers(entries, query, t);
      }
      SearchMatchesInOrder(entries, query);
      if query == [] {
        SearchEmptyQuery(entries);
      }
      r := SearchResults(query, results);
    }
  }

  /** `new_page`: a GET shows the form. A POST without a `title` field fails
      on `None.strip()`. A POST whose cleaned title equals an existing title
      up to case is refused and changes nothing; any other POST saves
      exactly one entry, under the cleaned title, and redirects to it. */
  method NewPage(store: Store, req: Request) returns (r: Response)
    requires store.Valid()
    modifies store
    ensures store.Valid()
    ensures !req.post ==> r == NewPageForm && unchanged(store)
    ensures req.post && "title" !in req.form ==> r == Unhandled("AttributeError") && unchanged(store)
    ensures req.post && "title" in req.form && TitleTaken(NormalizeTitle(req.form["title"]), old(store.titles)) ==>
      r == ErrorPage(AlreadyExists) && unchanged(store)
    ensures req.post && "title" in req.form && !TitleTaken(NormalizeTitle(req.form["title"]), old(store.titles)) ==>
      var t := NormalizeTitle(req.form["title"]);
      r == Redirect(t) &&
      t !in old(store.files) &&
      store.files == old(store.files)[t := Serialize(t, Field(req.form, "content", ""))] &&
      store.titles == old(store.titles) + [t]
  {
    if !req.post {
      return NewPageForm;
    }
    if "title" !in req.form {
      return Unhandled("AttributeError");
    }
    var rawTitle := Strip(req.form["title"]);
    var title := CleanHeader(rawTitle);
    var content := Field(req.form, "content", "");
    var entries := store.ListEntries();
    if TitleTaken(title, entries) {
      r := ErrorPage(AlreadyExists);
    } else {
      assert title !in entries by {
        if title in entries {
          TitleTakenCaseInsensitive(entries, title);
        }
      }
      store.SaveEntry(title, Serialize(title, content));
      r := Redirect(title);
    }
  }

  /** `edit_page(title)`: a missing entry gives the not-found error and a
      stored text without a line feed a `ValueError`, neither writing
      anything. Otherwise a GET shows the cleaned header title and the body
      without its leading line feeds, and a POST saves the normalised
      content under the cleaned header title, whatever key was requested. */
  method EditPage(store: Store, title: string, req: Request) returns (r: Response)
    requires store.Valid()
    modifies store
    ensures store.Valid()
    ensures title !in old(store.files) ==> r == ErrorPage(NotFound) && unchanged(store)
    ensures title in old(store.files) && '\n' !in old(store.files)[title] ==>
      r == Unhandled("ValueError") && unchanged(store)
    ensures title in old(store.files) && '\n' in old(store.files)[title] && !req.post ==>
      var h := SplitHeader(old(store.files)[title]).value;
      r == EditForm(h.0, LStrip(h.1, {'\n'})) && unchanged(store)
    ensures title in old(store.files) && '\n' in old(store.files)[title] && req.post ==>
      var key := SplitHeader(old(store.files)[title]).value.0;
      r == Redirect(key) &&
      store.files == old(store.files)[key := Serialize(key, NormalizeContent(Field(req.form, "content", "")))] &&
      store.titles == if key in old(store.files) then old(store.titles) else old(store.titles) + [key]
  {
    var entry := store.GetEntry(title);
    if entry.None? {
      return ErrorPage(NotFound);
    }
    var header := SplitHeader(entry.value);
    if header.None? {
      return Unhandled("ValueError");
    }
    var cleanTitle, body := header.value.0, header.value.1;
    body := LStrip(body, {'\n'});
    if req.post {
      var content := Field(req.form, "content", "");
      content := Replace(content, "\r\n", "\n");
      content := Strip(content);
      content := CollapseNewlines(content);
      store.SaveEntry(cleanTitle, Serialize(cleanTitle, content));
      r := Redirect(cleanTitle);
    } else {
      r := EditForm(cleanTitle, body);
    }
  }

  /** `random_entry`: with no entries `random.choice` raises `IndexError`;
      otherwise the redirect goes to one of the listed titles. */
  method RandomEntry(store: Store) returns (r: Response)
    requires store.Valid()
    ensures store.titles == [] ==> r == Unhandled("IndexError")
    ensures store.titles != [] ==> r.Redirect? && r.target in store.titles
  {
    var entries := store.ListEntries();
    if entries == [] {
      r := Unhandled("IndexError");
    } else {
      assert entries[0] in entries;
      var t :| t in entries;
      r := Redirect(t);
    }
  }

  /** Creating a page with a title that is stable once cleaned and then
      following the redirect shows that title and the stripped content. */
  method CreateThenView(store: Store, req: Request) returns (created: Response, viewed: Response)
    requires store.Valid()
    requires req.post && "title" in req.form
    requires IsStableTitle(NormalizeTitle(req.form["title"]))
    requires !TitleTaken(NormalizeTitle(req.form["title"]), store.titles)
    modifies store
    ensures store.Valid()
    ensures created == Redirect(NormalizeTitle(req.form["title"]))
    ensures viewed == EntryPage(NormalizeTitle(req.form["title"]), Strip(Field(req.form, "content", "")))
  {
    var t, content := NormalizeTitle(req.form["title"]), Field(req.form, "content", "");
    created := NewPage(store, req);
    viewed := Entry(store, t);
    EntryViewOfSaved(t, content);
  }

  /** Submitting a second title that differs from a created one only in
      case is refused and leaves the store as the first creation left it. */
  method CreateTwice(store: Store, first: Request, second: Request) returns (r1: Response, r2: Response)
    requires store.Valid()
    requires first.post && "title" in first.form && second.post && "title" in second.form
    requires !TitleTaken(NormalizeTitle(first.form["title"]), store.titles)
    requires Lower(NormalizeTitle(second.form["title"])) == Lower(NormalizeTitle(first.form["title"]))
    modifies store
    ensures store.Valid()
    ensures r1 == Redirect(NormalizeTitle(first.form["title"]))
    ensures r2 == ErrorPage(AlreadyExists)
    ensures store.titles == old(store.titles) + [NormalizeTitle(first.form["title"])]
  {
    r1 := NewPage(store, first);
    var t, t' := NormalizeTitle(first.form["title"]), NormalizeTitle(second.form["title"]);
    var last := |store.titles| - 1;
    assert store.titles[last] == t;
    assert Lower(store.titles[last]) == Lower(t');
    assert TitleTaken(t', store.titles);
    r2 := NewPage(store, second);
  }

  /** Opening the edit form of an entry stored under a title without line
      feeds shows that title's cleaned header and the content, as long as
      the content does not itself start with a line feed. */
  method ReloadSaved(store: Store, t: string, c: string, reload: Request) returns (shown: Response)
    requires store.Valid()
    requires !reload.post
    requires t in store.files && store.files[t] == Serialize(t, c)
    requires '\n' !in t && (c == [] || c[0] != '\n')
    modifies store
    ensures store.Valid()
    ensures shown == EditForm(CleanHeader("# " + t), c) && unchanged(store)
  {
    SplitSerialized(t, c);
    LStripOneNewline(c);
    shown := EditPage(store, t, reload);
  }

  /** Saving an edit and opening the edit form of the entry it wrote shows
      exactly the normalised content, whatever the header title. The form's
      title is the saved title read back as a header, which is the saved
      title itself unless that starts with `#`. */
  method EditThenReload(store: Store, title: string, edit: Request, reload: Request) returns (saved: Response, shown: Response)
    requires store.Valid()
    requires edit.post && !reload.post
    requires title in store.files && '\n' in store.files[title]
    modifies store
    ensures store.Valid()
    ensures var t := SplitHeader(old(store.files)[title]).value.0;
      saved == Redirect(t) &&
      shown == EditForm(CleanHeader("# " + t), NormalizeContent(Field(edit.form, "content", "")))
    ensures var t := SplitHeader(old(store.files)[title]).value.0;
      (t == [] || t[0] != '#') ==> shown.title == t
  {
    var t := SplitHeader(store.files[title]).value.0;
    var n := NormalizeContent(Field(edit.form, "content", ""));
    assert '\n' !in t;
    assert n == [] || n[0] != '\n';
    saved := EditPage(store, title, edit);
    shown := ReloadSaved(store, t, n, reload);
    if t == [] || t[0] != '#' {
      assert IsStableTitle(t);
      CleanHeaderOfStable(t);
    }
  }
}
