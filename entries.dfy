// The string logic of the encyclopedia views: how a title is cleaned, how an
// entry is laid out in the store and read back, how edited content is
// normalised, which titles a search returns and when a new title counts as
// taken. The request handlers in module Views call these functions.

module Entries {
  import opened Wrappers
  import opened PyStr

  /** The characters `lstrip("# ")` removes from the front of a header. */
  const HeaderMarks: set<char> := {'#', ' '}

  /** The title shown for a stored header line: `line.lstrip("# ").strip()`. */
  function CleanHeader(line: string): (title: string)
    ensures title != [] ==> title[0] !in Whitespace && title[|title| - 1] !in Whitespace
    ensures forall c :: c in title ==> c in line
  {
    var left := LStrip(line, HeaderMarks);
    assert left == line[|line| - |left|..];
    StripChars(left);
    Strip(left)
  }

  /** The title a new page is saved under: the submitted title is stripped,
      then cleaned like a header line. */
  function NormalizeTitle(raw: string): (title: string)
    ensures title != [] ==> title[0] !in Whitespace && title[|title| - 1] !in Whitespace
    ensures forall c :: c in title ==> c in raw
  {
    StripChars(raw);
    CleanHeader(Strip(raw))
  }

  /** The text stored for an entry: a `# ` header line with the title, a
      blank line, then the content. */
  function Serialize(title: string, content: string): (r: string)
    ensures |r| == |title| + |content| + 4
    ensures r[..2] == "# " && r[2..2 + |title|] == title
    ensures r[2 + |title|..4 + |title|] == "\n\n" && r[4 + |title|..] == content
  {
    "# " + title + "\n\n" + content
  }

  /** Reading a stored entry back: `text.split("\n", 1)` unpacked into a
      header line and the rest; the header is cleaned into the title. `None`
      stands for the `ValueError` raised when `text` has no line feed. */
  function SplitHeader(text: string): (h: Option<(string, string)>)
    ensures h.None? <==> '\n' !in text
    ensures h.Some? ==> '\n' !in h.value.0 && |h.value.1| < |text| && text[|text| - |h.value.1|..] == h.value.1
  {
    var parts := SplitOnce(text, '\n');
    if |parts| == 2 then
      assert text == parts[0] + "\n" + parts[1];
      Some((CleanHeader(parts[0]), parts[1]))
    else None
  }

  /** `SplitHeader` cuts at the first line feed: the header is the cleaned
      text before it, and the rest is everything after it. */
  lemma SplitHeaderCut(text: string)
    requires '\n' in text
    ensures SplitHeader(text).Some?
    ensures var (title, rest) := SplitHeader(text).value;
      var k := |text| - |rest| - 1;
      text[k] == '\n' && '\n' !in text[..k] && title == CleanHeader(text[..k])
  {
    var parts := SplitOnce(text, '\n');
    var k := |parts[0]|;
    assert SplitHeader(text).value == (CleanHeader(parts[0]), parts[1]);
    assert text[k] == '\n' && text[..k] == parts[0];
  }

  /** A title that survives being written as a header and read back: no
      line feed in it, no whitespace at either end, and no leading `#`. */
  predicate IsStableTitle(t: string)
  {
    '\n' !in t && (t == [] || (t[0] !in Whitespace && t[0] != '#' && t[|t| - 1] !in Whitespace))
  }

  /** The header of a serialised entry is cut at its own line feed. */
  lemma SplitSerialized(t: string, c: string)
    requires '\n' !in t
    ensures SplitOnce(Serialize(t, c), '\n') == ["# " + t, "\n" + c]
  {
    var s := Serialize(t, c);
    var parts := SplitOnce(s, '\n');
    assert s == ("# " + t) + "\n" + ("\n" + c);
    assert '\n' in s;
    SplitAtFirstUnique(s, '\n', parts[0], parts[1], "# " + t, "\n" + c);
  }

  /** A stable title is recovered exactly from its header line. */
  lemma CleanHeaderOfStable(t: string)
    requires IsStableTitle(t)
    ensures CleanHeader("# " + t) == t
  {
    assert ("# " + t)[0] == '#' && ("# " + t)[1..] == " " + t;
    assert (" " + t)[0] == ' ' && (" " + t)[1..] == t;
    LStripDrop("# " + t, HeaderMarks);
    LStripDrop(" " + t, HeaderMarks);
    assert LStrip(t, HeaderMarks) == t;
  }

  /** Round trip of the on-disk format: a stable title and any content come
      back from `SplitHeader` as the title and a line feed before the
      content. */
  lemma HeaderRoundTrip(t: string, c: string)
    requires IsStableTitle(t)
    ensures SplitHeader(Serialize(t, c)) == Some((t, "\n" + c))
  {
    SplitSerialized(t, c);
    CleanHeaderOfStable(t);
  }

  /** The title `new_page` saves is recovered by every later read of the
      entry, provided the cleaned title has no line feed and does not start
      with `#`. */
  lemma NewPageTitleRoundTrip(raw: string, c: string)
    requires '\n' !in NormalizeTitle(raw)
    requires NormalizeTitle(raw) == [] || NormalizeTitle(raw)[0] != '#'
    ensures SplitHeader(Serialize(NormalizeTitle(raw), c)) == Some((NormalizeTitle(raw), "\n" + c))
  {
    HeaderRoundTrip(NormalizeTitle(raw), c);
  }

  /** A saved title that starts with `#` does not come back: the header's
      `lstrip("# ")` also eats the title's own leading `#`, so the title read
      back is strictly shorter. */
  lemma HeaderDropsLeadingHash(t: string, c: string)
    requires '\n' !in t && t != [] && t[0] == '#'
    ensures SplitHeader(Serialize(t, c)) == Some((CleanHeader("# " + t), "\n" + c))
    ensures |CleanHeader("# " + t)| < |t|
  {
    SplitSerialized(t, c);
    var h := "# " + t;
    assert h[0] == '#' && h[1..] == " " + t;
    assert (" " + t)[0] == ' ' && (" " + t)[1..] == t;
    LStripDrop(h, HeaderMarks);
    LStripDrop(" " + t, HeaderMarks);
    LStripDrop(t, HeaderMarks);
  }

  /** `new_page` produces such titles: a submitted `"#\t#" + u` (for
      instance `"#\t#x"`) is saved as `"#" + u`, whose header `"# #" + u`
      reads back as `u`. */
  lemma HashTabTitle(u: string)
    requires IsStableTitle(u)
    ensures NormalizeTitle("#\t#" + u) == "#" + u
    ensures CleanHeader("# " + ("#" + u)) == u
  {
    HashTabStrip(u);
    HashTabLStrip(u);
    TabHashStrip(u);
    HashHeader(u);
  }

  lemma HashTabStrip(u: string)
    requires IsStableTitle(u)
    ensures Strip("#\t#" + u) == "#\t#" + u
  {
    var raw := "#\t#" + u;
    assert raw[0] == '#' && raw[|raw| - 1] !in Whitespace;
  }

  lemma TabHashStrip(u: string)
    requires IsStableTitle(u)
    ensures Strip("\t#" + u) == "#" + u
  {
    var tabbed := "\t#" + u;
    assert tabbed[0] == '\t' && tabbed[1] == '#' && tabbed[1..] == "#" + u;
    assert tabbed[|tabbed| - 1] == (if u == [] then '#' else u[|u| - 1]);
    StripOneLeading(tabbed);
  }

  lemma HashTabLStrip(u: string)
    ensures LStrip("#\t#" + u, HeaderMarks) == "\t#" + u
  {
    var raw, tabbed := "#\t#" + u, "\t#" + u;
    assert raw[0] == '#' && raw[1..] == tabbed && tabbed[0] == '\t';
    assert '\t' !in HeaderMarks;
    LStripDrop(raw, HeaderMarks);
  }

  lemma HashHeader(u: string)
    requires IsStableTitle(u)
    ensures CleanHeader("# " + ("#" + u)) == u
  {
    var header, spaced, saved := "# " + ("#" + u), " #" + u, "#" + u;
    assert header[0] == '#' && header[1..] == spaced;
    assert spaced[0] == ' ' && spaced[1..] == saved;
    assert saved[0] == '#' && saved[1..] == u;
    LStripDrop(header, HeaderMarks);
    LStripDrop(spaced, HeaderMarks);
    LStripDrop(saved, HeaderMarks);
    assert LStrip(u, HeaderMarks) == u;
    assert Strip(u) == u;
  }

  /** A title with a line feed is cut there when read back: the header is
      its first line, and the rest of the title joins the body. */
  lemma HeaderCutAtNewline(a: string, b: string, c: string)
    requires '\n' !in a
    ensures SplitHeader(Serialize(a + "\n" + b, c)) == Some((CleanHeader("# " + a), b + "\n\n" + c))
  {
    var s := Serialize(a + "\n" + b, c);
    SerializeSplitTitle(a, b, c);
    var parts := SplitOnce(s, '\n');
    SplitAtFirstUnique(s, '\n', parts[0], parts[1], "# " + a, b + "\n\n" + c);
  }

  lemma SerializeSplitTitle(a: string, b: string, c: string)
    ensures Serialize(a + "\n" + b, c) == ("# " + a) + "\n" + (b + "\n\n" + c)
  {
  }

  /** `new_page` keeps a line feed inside a submitted title. */
  lemma NewlineTitleKept()
    ensures NormalizeTitle("a\nb") == "a\nb"
  {
    var t := "a\nb";
    assert t[0] == 'a' && t[|t| - 1] == 'b';
    assert 'a' !in Whitespace && 'b' !in Whitespace && 'a' !in HeaderMarks;
    assert Strip(t) == t;
    assert LStrip(t, HeaderMarks) == t;
  }

  /** The content `edit_page` saves: line endings `\r\n` become `\n`, the text
      is stripped, and runs of three or more line feeds become two. */
  function NormalizeContent(content: string): (r: string)
    ensures NoTripleNewline(r)
    ensures r != [] ==> r[0] !in Whitespace && r[|r| - 1] !in Whitespace
    ensures |r| <= |content|
  {
    CollapseNewlines(Strip(Replace(content, "\r\n", "\n")))
  }

  /** One pass of `replace("\r\n", "\n")` can leave a `\r\n` behind: in
      `\r\r\n` only the second and third characters form a match. */
  lemma CrLfAfterOnePass(s: string)
    ensures Replace("\r\r\n" + s, "\r\n", "\n") == "\r\n" + Replace(s, "\r\n", "\n")
    ensures Contains(Replace("\r\r\n" + s, "\r\n", "\n"), "\r\n")
  {
    var u := "\r\r\n" + s;
    assert u[0] == '\r' && u[1] == '\r';
    assert u[1..] == "\r\n" + s;
    assert (u[1..])[2..] == s;
  }

  /** Text whose every `\r` is followed by `\n` (as a browser sends it) has no
      `\r` at all once `\r\n` is replaced. */
  lemma {:induction false} CrLfReplacedCompletely(s: string)
    requires forall i :: 0 <= i < |s| && s[i] == '\r' ==> i + 1 < |s| && s[i + 1] == '\n'
    ensures '\r' !in Replace(s, "\r\n", "\n")
    decreases |s|
  {
    if s != [] {
      if "\r\n" <= s {
        assert forall i :: 0 <= i < |s[2..]| ==> s[2..][i] == s[i + 2];
        CrLfReplacedCompletely(s[2..]);
      } else {
        assert s[0] != '\r';
        assert forall i :: 0 <= i < |s[1..]| ==> s[1..][i] == s[i + 1];
        CrLfReplacedCompletely(s[1..]);
      }
    }
  }

  /** The contents normalisation leaves alone are exactly those with no
      `\r\n`, no whitespace at either end and no run of three line feeds. */
  lemma NormalizeContentFixpoints(s: string)
    ensures NormalizeContent(s) == s <==>
      !Contains(s, "\r\n") && NoTripleNewline(s) &&
      (s == [] || (s[0] !in Whitespace && s[|s| - 1] !in Whitespace))
  {
    if Contains(s, "\r\n") {
      ReplaceShortens(s, "\r\n", "\n");
    } else {
      ReplaceNoMatch(s, "\r\n", "\n");
      if NoTripleNewline(s) && (s == [] || (s[0] !in Whitespace && s[|s| - 1] !in Whitespace)) {
        CollapseNoTriple(s);
      }
    }
  }

  /** `("\n" + n).lstrip("\n")` is `n` when `n` does not start with `\n`. */
  lemma LStripOneNewline(n: string)
    requires n == [] || n[0] != '\n'
    ensures LStrip("\n" + n, {'\n'}) == n
  {
    assert ("\n" + n)[1..] == n;
  }

  /** What `edit_page` shows after a save: the stored text splits back into
      the (stable) title and, once leading line feeds are dropped, exactly
      the normalised content. */
  lemma EditRoundTrip(t: string, content: string)
    requires IsStableTitle(t)
    ensures SplitHeader(Serialize(t, NormalizeContent(content))) ==
      Some((t, "\n" + NormalizeContent(content)))
    ensures LStrip("\n" + NormalizeContent(content), {'\n'}) == NormalizeContent(content)
  {
    var n := NormalizeContent(content);
    HeaderRoundTrip(t, n);
    LStripOneNewline(n);
  }

  /** The content half of the edit round trip holds for every header title:
      whatever the title, the stored text splits after its header, and
      `lstrip("\n")` of the rest is exactly the normalised content. */
  lemma EditContentRoundTrip(t: string, content: string)
    requires '\n' !in t
    ensures SplitHeader(Serialize(t, NormalizeContent(content))).Some?
    ensures LStrip(SplitHeader(Serialize(t, NormalizeContent(content))).value.1, {'\n'}) == NormalizeContent(content)
  {
    var n := NormalizeContent(content);
    SplitSerialized(t, n);
    LStripOneNewline(n);
  }

  /** `edit_page` keeps the title it read: saving under the cleaned header of
      a stored entry and reading again gives the same title, unless that
      title starts with `#`. */
  lemma EditKeepsTitle(text: string, content: string)
    requires SplitHeader(text).Some?
    requires var t := SplitHeader(text).value.0; t == [] || t[0] != '#'
    ensures var t := SplitHeader(text).value.0;
      SplitHeader(Serialize(t, NormalizeContent(content))) == Some((t, "\n" + NormalizeContent(content)))
    ensures LStrip("\n" + NormalizeContent(content), {'\n'}) == NormalizeContent(content)
  {
    var parts := SplitOnce(text, '\n');
    var t := SplitHeader(text).value.0;
    assert t == CleanHeader(parts[0]);
    assert '\n' !in t;
    EditRoundTrip(t, content);
  }

  /** The titles a search lists: those whose lower-cased form contains the
      lower-cased query, in the order of `entries`. */
  function SearchMatches(entries: seq<string>, query: string): (results: seq<string>)
    ensures |results| <= |entries|
    decreases |entries|
  {
    if entries == [] then []
    else
      (if Contains(Lower(entries[0]), Lower(query)) then [entries[0]] else [])
      + SearchMatches(entries[1..], query)
  }

  /** `a` is `b` with some elements left out, the rest in the same order. */
  predicate IsSubsequence(a: seq<string>, b: seq<string>)
    decreases |b|
  {
    a == [] || (b != [] && ((a[0] == b[0] && IsSubsequence(a[1..], b[1..])) || IsSubsequence(a, b[1..])))
  }

  /** A title is a search result exactly when it is an entry whose lower-cased
      form contains the lower-cased query. */
  lemma {:induction false} SearchMatchesMembers(entries: seq<string>, query: string, t: string)
    ensures t in SearchMatches(entries, query) <==> t in entries && Contains(Lower(t), Lower(query))
    decreases |entries|
  {
    if entries != [] {
      SearchMatchesMembers(entries[1..], query, t);
      assert entries == [entries[0]] + entries[1..];
    }
  }

  /** The results keep the order of the entry list. */
  lemma {:induction false} SearchMatchesInOrder(entries: seq<string>, query: string)
    ensures IsSubsequence(SearchMatches(entries, query), entries)
    decreases |entries|
  {
    if entries != [] {
      var rest := SearchMatches(entries[1..], query);
      SearchMatchesInOrder(entries[1..], query);
      if Contains(Lower(entries[0]), Lower(query)) {
        assert SearchMatches(entries, query) == [entries[0]] + rest;
        assert ([entries[0]] + rest)[1..] == rest;
      } else {
        assert SearchMatches(entries, query) == rest;
      }
    }
  }

  /** The empty query is contained in every title, so it lists every entry. */
  lemma {:induction false} SearchEmptyQuery(entries: seq<string>)
    ensures SearchMatches(entries, "") == entries
    decreases |entries|
  {
    if entries != [] {
      SearchEmptyQuery(entries[1..]);
    }
  }

  /** The search is substring containment: with entries `Cat` and `Dog`, the
      query `a` lists `Cat`, while `ta` lists nothing although both of its
      letters occur in `cat`. */
  lemma SearchIsSubstring()
    ensures SearchMatches(["Cat", "Dog"], "a") == ["Cat"]
    ensures 't' in Lower("Cat") && 'a' in Lower("Cat")
    ensures SearchMatches(["Cat", "Dog"], "ta") == []
  {
    LowerSamples();
    SubstringSamples();
    var entries := ["Cat", "Dog"];
    assert entries[0] == "Cat" && entries[1..] == ["Dog"] && ["Dog"][1..] == [];
  }

  lemma LowerSamples()
    ensures Lower("Cat") == "cat" && Lower("Dog") == "dog"
    ensures Lower("a") == "a" && Lower("ta") == "ta"
  {
  }

  lemma SubstringSamples()
    ensures Contains("cat", "a") && !Contains("dog", "a")
    ensures !Contains("cat", "ta") && !Contains("dog", "ta")
  {
    var cat, dog := "cat", "dog";
    assert cat[1..] == "at" && cat[2..] == "t" && dog[1..] == "og" && dog[2..] == "g";
    assert cat[0] != 't' && cat[1..][0] != 't' && dog[0] != 't' && dog[1..][0] != 't';
    assert dog[0] != 'a' && dog[1..][0] != 'a' && dog[2..][0] != 'a';
    NotContainedIn3(cat, "ta");
    NotContainedIn3(dog, "ta");
    NotContainedIn3(dog, "a");
  }

  /** Unfolds `Contains` over a three-character text. */
  lemma NotContainedIn3(hay: string, needle: string)
    requires |hay| == 3 && needle != []
    requires !(needle <= hay) && !(needle <= hay[1..]) && !(needle <= hay[2..])
    ensures !Contains(hay, needle)
  {
    assert hay[1..][1..] == hay[2..] && hay[2..][1..] == [];
    assert !Contains([], needle);
    assert !Contains(hay[2..], needle);
    assert !Contains(hay[1..], needle);
  }

  /** `title.lower() in (e.lower() for e in entries)`: some entry equals the
      title once both are lower-cased. */
  function TitleTaken(title: string, entries: seq<string>): (taken: bool)
    ensures taken <==> exists i :: 0 <= i < |entries| && Lower(entries[i]) == Lower(title)
    decreases |entries|
  {
    entries != [] && (Lower(entries[0]) == Lower(title) || TitleTaken(title, entries[1..]))
  }

  /** A title equal to an entry up to ASCII case is taken; in particular
      every entry is taken. */
  lemma TitleTakenCaseInsensitive(entries: seq<string>, t: string)
    requires t in entries
    ensures TitleTaken(t, entries)
    ensures forall u :: Lower(u) == Lower(t) ==> TitleTaken(u, entries)
  {
    var i :| 0 <= i < |entries| && entries[i] == t;
    forall u | Lower(u) == Lower(t)
      ensures TitleTaken(u, entries)
    {
      assert Lower(entries[i]) == Lower(u);
    }
  }

  /** `test` collides with `Test`. */
  lemma TitleTakenSample()
    ensures TitleTaken("test", ["Test"])
  {
    var entries := ["Test"];
    assert Lower("Test") == "test" == Lower("test");
    TitleTakenCaseInsensitive(entries, entries[0]);
  }
}
