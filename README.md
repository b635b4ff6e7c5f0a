# Encyclopedia views, modelled in Dafny

This project models the request handlers of the encyclopedia app of a small
Django wiki (`encyclopedia/views.py`). The handlers are `index`, `entry`,
`search`, `new_page`, `edit_page` and `random_entry`. The model covers the
string logic they contain and how they read and write the entry store:

- how a submitted title is cleaned;
- how an entry is laid out as `# <title>\n\n<content>` and read back by
  splitting at the first line feed;
- how edited content is normalised;
- which titles a search lists;
- when a new title counts as already taken;
- which exception escapes a handler on malformed input.

Files and modules:

- `pystr.dfy`
  - Module `Wrappers`: an `Option` type.
  - Module `PyStr`: the Python string built-ins the handlers call, as
    functions with contracts. These are `strip`, `lstrip(chars)`, `lower`,
    substring `in`, `split(sep, 1)`, `replace` and
    `re.sub(r'\n{3,}', '\n\n', s)`. `RStrip` is the right half of
    `strip()`; the handlers do not call `rstrip` themselves.
- `entries.dfy`, module `Entries`: everything the handlers compute from
  strings. This covers title cleaning, the stored text format, content
  normalisation, the search filter and the duplicate-title test, with
  round-trip and edge-case lemmas.
- `util.dfy`, module `Util`: class `Store`, the entry store the handlers
  use through `list_entries`, `get_entry` and `save_entry`. It holds a
  list of titles and a map from title to stored text.
- `views.dfy`, module `Views`: the handlers as methods over a `Store`. A
  `Request` carries the request method, the query parameters and the form
  fields. A `Response` says one of three things:
  - which page is rendered, with which values;
  - where the user is redirected;
  - which Python exception escapes the handler (`Unhandled`).

  This module also has a few client methods that run two requests in a row.

Choices about how the Python behaves:

- Whitespace is the set of code points for which Python's `str.isspace()`
  holds. So `strip()` is exact.
- Lower-casing is ASCII only.
- Exceptions that escape the handlers are modelled as results, not as
  preconditions:
  - `ValueError` from unpacking `split("\n", 1)` on text without a line feed;
  - `AttributeError` from `None.strip()` when the form has no `title`;
  - `IndexError` from `random.choice([])`.
- Search follows line 44 of `views.py`, and the comment at lines 36-37:
  a title is listed when it contains the query as a substring, after both
  are lower-cased. `SearchIsSubstring` shows that this is not matching
  letter by letter: the query `ta` does not find `Cat`.
- In `new_page`, `request.POST.get("title")` has no default. A missing
  title field therefore raises `AttributeError`; it does not act as an
  empty title.

## Model

| member | source | states |
|---|---|---|
| PyStr.LStrip | encyclopedia/views.py:27 | `lstrip(chars)` returns a suffix of its argument. Everything it removed is in `chars`, and the suffix does not start with one of `chars`. |
| PyStr.RStrip | encyclopedia/views.py:27 | The right half of `strip()` returns a prefix of its argument. Everything it removed is in `chars`, and the prefix does not end with one of `chars`. |
| PyStr.Strip | encyclopedia/views.py:55 | `strip()` never lengthens its argument and leaves no whitespace at either end. It returns the text unchanged exactly when the text is empty or already has no whitespace at either end. |
| PyStr.StripChars | encyclopedia/views.py:92 | Every character of `strip()`'s result occurs in the argument. |
| PyStr.StripKeepsText | encyclopedia/views.py:92 | Every non-whitespace character of the argument survives `strip()` in its own place: its position lies in the kept slice, shifted by the number of leading characters removed. |
| PyStr.StripIsSlice | encyclopedia/views.py:92 | The result of `strip()` is a contiguous slice of the argument. |
| PyStr.StripLeadingSpace | encyclopedia/views.py:29 | A leading whitespace character makes no difference to `strip()`. This is why the line feed before an entry body is lost when the body is shown. |
| PyStr.Lower | encyclopedia/views.py:44 | `lower()` keeps the length and lower-cases each ASCII letter in place. |
| PyStr.LowerIdempotent | encyclopedia/views.py:62 | Lower-casing twice equals lower-casing once, and no upper-case ASCII letter remains. |
| PyStr.Contains | encyclopedia/views.py:44 | The substring test `needle in hay` holds whenever `needle` is a prefix of `hay`, and only when `needle` is no longer than `hay`. |
| PyStr.ContainsIff | encyclopedia/views.py:44 | The substring test `needle in hay` holds exactly when `needle` occurs in `hay` at some index. |
| PyStr.OccurrenceContained | encyclopedia/views.py:44 | An occurrence at any index makes the substring test true. |
| PyStr.ContainedOccurrence | encyclopedia/views.py:44 | When the substring test is true, it yields an index where the needle occurs. |
| PyStr.SplitOnce | encyclopedia/views.py:26 | `split(sep, 1)` gives one part exactly when `sep` is absent, and that part is the whole text. Otherwise it gives two parts: the first contains no `sep`, and joining the two with `sep` gives back the text. |
| PyStr.SplitAtFirstUnique | encyclopedia/views.py:26 | The cut at the first separator is unique. |
| PyStr.Replace | encyclopedia/views.py:91 | A replacement no longer than the pattern never lengthens the text. |
| PyStr.ReplaceNoMatch | encyclopedia/views.py:91 | Text without the pattern is returned unchanged. |
| PyStr.ReplaceShortens | encyclopedia/views.py:91 | When the pattern occurs and the replacement is shorter, the text gets strictly shorter. |
| PyStr.LeadingNewlines | encyclopedia/views.py:93 | Gives the length of the maximal run of line feeds at the start of the text. |
| PyStr.CollapseNewlines | encyclopedia/views.py:93 | After `re.sub(r'\n{3,}', '\n\n', s)` no three consecutive line feeds remain. The text is no longer than before, and its first and last characters are kept. |
| PyStr.NoTripleNewlineConcat | encyclopedia/views.py:93 | Joining two texts without triple line feeds creates none, unless both sides bring line feeds to the seam. |
| PyStr.CollapseNoTriple | encyclopedia/views.py:93 | Text without a run of three line feeds is left unchanged. |
| PyStr.CollapseKeepsText | encyclopedia/views.py:93 | Collapsing removes only line feeds: with all line feeds dropped, the text before and after is the same. |
| PyStr.CollapseLongRun | encyclopedia/views.py:93 | A maximal run of three or more line feeds between two texts becomes exactly `"\n\n"`, and each side is collapsed on its own. |
| PyStr.CollapseSample | encyclopedia/views.py:93 | `"a\n\n\nb"` becomes `"a\n\nb"`. |
| PyStr.LeadingNewlinesConcat | encyclopedia/views.py:93 | The leading run of line feeds of `x + y` stops inside `x`, unless `x` is all line feeds. In that case it continues into `y`. |
| PyStr.CollapseFixpoints | encyclopedia/views.py:93 | The collapse leaves a text unchanged exactly when the text has no run of three line feeds. Applying it twice equals applying it once. |
| PyStr.DropNewlines | encyclopedia/views.py:93 | The reference used by `CollapseKeepsText`: the text without its line feeds. |
| Entries.CleanHeader | encyclopedia/views.py:27 | `line.lstrip("# ").strip()` leaves no whitespace at either end and introduces no character that was not in the line. |
| Entries.NormalizeTitle | encyclopedia/views.py:55-56 | The title `new_page` saves has no whitespace at either end and only characters of the submitted title. |
| Entries.Serialize | encyclopedia/views.py:68 | The stored text (written the same way by `edit_page` at line 96) is `# `, the title, two line feeds and the content, each at its own place and nothing else: its length is theirs plus four. |
| Entries.SplitHeader | encyclopedia/views.py:83-84 | Reading a stored text back fails exactly when the text has no line feed. Otherwise the title has no line feed, and the rest is a strictly shorter suffix of the text. |
| Entries.SplitHeaderCut | encyclopedia/views.py:26-27 | A text with a line feed is cut at its first line feed: the title is the cleaned text before it, and the rest is everything after it. |
| Entries.SplitSerialized | encyclopedia/views.py:68 | The text `new_page` stores for a title without line feeds splits into the header line and a line feed followed by the content. |
| Entries.CleanHeaderOfStable | encyclopedia/views.py:27 | A stable title comes back exactly from its `# ` header line. A stable title has no line feed, no whitespace at either end and no leading `#`. |
| Entries.HeaderRoundTrip | encyclopedia/views.py:26-27 | Serialising a stable title with any content and reading it back gives the title and a line feed followed by the content. |
| Entries.NewPageTitleRoundTrip | encyclopedia/views.py:55-68 | The title `new_page` saves is read back unchanged by `entry` and `edit_page`, provided it has no line feed and does not start with `#`. |
| Entries.HeaderDropsLeadingHash | encyclopedia/views.py:84 | A saved title that starts with `#` is read back strictly shorter. |
| Entries.HashTabTitle | encyclopedia/views.py:55-56 | The submitted title `"#\t#" + u` is saved as `"#" + u`, and that entry's header reads back as `u`. |
| Entries.HashTabStrip | encyclopedia/views.py:55 | `strip()` keeps `"#\t#" + u`. |
| Entries.TabHashStrip | encyclopedia/views.py:56 | `strip()` turns `"\t#" + u` into `"#" + u`. |
| Entries.HashTabLStrip | encyclopedia/views.py:56 | `lstrip("# ")` turns `"#\t#" + u` into `"\t#" + u`. |
| Entries.HashHeader | encyclopedia/views.py:27 | The header `"# #" + u` is cleaned to `u`. |
| Entries.HeaderCutAtNewline | encyclopedia/views.py:26 | A title with a line feed is cut at that line feed when read back. The rest of the title joins the body. |
| Entries.NewlineTitleKept | encyclopedia/views.py:55-56 | `new_page` keeps a line feed inside a submitted title (`"a\nb"`). |
| Entries.NormalizeContent | encyclopedia/views.py:91-93 | The normalised content has no run of three line feeds and no whitespace at either end, and is no longer than the submitted content. |
| Entries.CrLfAfterOnePass | encyclopedia/views.py:91 | After one `replace("\r\n", "\n")`, the text `"\r\r\n" + s` still contains `\r\n`. |
| Entries.CrLfReplacedCompletely | encyclopedia/views.py:91 | When every `\r` is followed by `\n`, no `\r` is left after the replacement. |
| Entries.NormalizeContentFixpoints | encyclopedia/views.py:91-93 | Normalisation leaves content unchanged exactly when the content has no `\r\n`, no run of three line feeds and no whitespace at either end. |
| Entries.LStripOneNewline | encyclopedia/views.py:85 | `("\n" + n).lstrip("\n")` is `n` when `n` does not start with a line feed. |
| Entries.EditRoundTrip | encyclopedia/views.py:83-96 | An entry saved by `edit_page` under a stable title splits back into that title and, after `lstrip("\n")`, exactly the normalised content. |
| Entries.EditContentRoundTrip | encyclopedia/views.py:83-96 | For every header title without a line feed, the text `edit_page` saves splits after its header. `lstrip("\n")` of the rest is then exactly the normalised content. |
| Entries.EditKeepsTitle | encyclopedia/views.py:84-96 | `edit_page` saves under the title it read from the header, and a later read finds that same title, unless the title starts with `#`. |
| Entries.SearchMatches | encyclopedia/views.py:44 | The search results are at most as many as the entries. |
| Entries.SearchMatchesMembers | encyclopedia/views.py:44 | A title is a result exactly when it is an entry whose lower-cased form contains the lower-cased query. |
| Entries.SearchMatchesInOrder | encyclopedia/views.py:44 | The results are a subsequence of the entries, in list order. |
| Entries.SearchEmptyQuery | encyclopedia/views.py:39-44 | The empty query lists every entry. |
| Entries.SearchIsSubstring | encyclopedia/views.py:44 | With entries `Cat` and `Dog`, the query `a` lists `Cat`. The query `ta` lists nothing, although both its letters occur in `cat`. |
| Entries.TitleTaken | encyclopedia/views.py:62 | A title is taken exactly when some entry equals it after both are lower-cased. |
| Entries.TitleTakenCaseInsensitive | encyclopedia/views.py:62 | Every existing title is taken, and so is every title whose lower-cased form equals an existing title's. |
| Entries.TitleTakenSample | encyclopedia/views.py:62 | `test` is taken when `Test` exists. |
| Util.Store.constructor | encyclopedia/views.py:12 | An empty store is valid: no title is listed twice, and exactly the stored titles are listed. |
| Util.Store.ListEntries | encyclopedia/views.py:12 | `list_entries()` returns the titles in enumeration order, and they are exactly the stored titles. |
| Util.Store.GetEntry | encyclopedia/views.py:18-19 | `get_entry(title)` returns the stored text, or `None` exactly when no entry is stored under that title. |
| Util.Store.SaveEntry | encyclopedia/views.py:68 | `save_entry(title, text)` is an upsert. Only the entry under `title` changes, a new title joins the end of the list, and the store stays valid. |
| Views.Field | encyclopedia/views.py:58 | `get(key, default)` on a request dictionary gives the stored value when the key is present and the default otherwise (also lines 39 and 90). |
| Views.Lookup | encyclopedia/views.py:18 | `get_entry` gives the stored text exactly when the title is a key, and `None` otherwise (also line 76). |
| Views.EntryView | encyclopedia/views.py:17-33 | The `entry` page for a lookup result. A missing entry gives the not-found error. Text without a line feed raises `ValueError`. Otherwise the page shows a title without line feeds and a body without whitespace at either end. |
| Views.EntryViewOfSaved | encyclopedia/views.py:26-29 | An entry saved under a stable title is shown with that title and the stripped content. |
| Views.Index | encyclopedia/views.py:10-13 | `index` lists every title of the store. |
| Views.Entry | encyclopedia/views.py:17-33 | `entry(title)` renders the entry view of what the store holds under `title`. |
| Views.Search | encyclopedia/views.py:38-48 | A query that is a title (compared case-sensitively) shows that entry. Otherwise the results are exactly the titles containing the query, ignoring case, in list order. The empty query lists every title. |
| Views.NewPage | encyclopedia/views.py:52-72 | GET shows the form. A POST without a title field raises `AttributeError`. A taken title gives the error page and leaves the store unchanged. Any other POST stores exactly `# t\n\n<content>` under the new cleaned title `t`, appends `t` to the list and redirects to it. |
| Views.EditPage | encyclopedia/views.py:75-105 | A missing entry gives the not-found error and text without a line feed raises `ValueError`; neither writes anything. GET shows the header title and the body without leading line feeds, and changes nothing. POST saves the normalised content under the header title, whatever key was requested, and redirects to it. |
| Views.RandomEntry | encyclopedia/views.py:108-111 | With no entries, `IndexError` is raised. Otherwise the redirect goes to one of the listed titles. |
| Views.CreateThenView | encyclopedia/views.py:52-69 | Creating a page whose cleaned title is stable and then viewing it shows that title and the stripped content. |
| Views.CreateTwice | encyclopedia/views.py:62-65 | A second creation with a title that equals the first up to case is refused, and the list keeps only the first creation. |
| Views.ReloadSaved | encyclopedia/views.py:83-105 | Take an entry stored under a title without line feeds, and content that does not start with a line feed. Its edit form shows the cleaned header of that title, and the content unchanged. |
| Views.EditThenReload | encyclopedia/views.py:88-105 | Saving an edit and reopening the edit form of the entry it wrote shows exactly the normalised content, whatever the header title. The form shows the saved title itself unless that title starts with `#`. |

## Left out

- Django's `render` and `redirect`, the templates and the request plumbing. A page is its name and its values, and a redirect is its target title.
- `markdown2.markdown` (line 29), an external library. `Views.EntryView` returns the stripped Markdown source that would be handed to it.
- The randomness of `random.choice`. `Views.RandomEntry` promises only that the choice is a listed title.
- The store's own implementation (`util.py`, its files and any case-insensitive lookup in `get_entry`); `util.py` is not part of this model. The store is an exact-key map with a list of titles.
- Util.Store.SaveEntry: appends a new title at the end of the list. Where a real store enumerates a new entry is not modelled.
- Full Unicode `str.lower()`: `PyStr.Lower` changes only the ASCII letters `A`–`Z`.
- Concurrent requests. The handlers run one at a time, and last-writer-wins races between them are not modelled.
- Any handler outside `views.py`.
- PyStr.Replace: its contract bounds the length and is completed by `ReplaceNoMatch`, `ReplaceShortens` and `Entries.CrLfReplacedCompletely`. It does not state, for a general pattern, that no occurrence survives; `Entries.CrLfAfterOnePass` shows that one can.
