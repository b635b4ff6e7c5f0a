// The entry store behind the encyclopedia views (`util.list_entries`,
// `util.get_entry`, `util.save_entry`). Its implementation is not part of
// this model: the store is abstract, a list of titles in enumeration order
// and a map from each title to the text stored under it, with exact
// (case-sensitive) keys.

module Util {
  import opened Wrappers

  /** No title is listed twice. */
  ghost predicate Distinct(titles: seq<string>)
  {
    forall i, j :: 0 <= i < j < |titles| ==> titles[i] != titles[j]
  }

  class Store {
    /** What `list_entries()` returns, in enumeration order. */
    var titles: seq<string>
    /** The stored text of each entry, keyed by title. */
    var files: map<string, string>

    /** Every stored entry is listed once, and only stored entries are
        listed. */
    ghost predicate Valid()
      reads this
    {
      Distinct(titles) && forall t :: t in files <==> t in titles
    }

    /** An empty store. */
    constructor ()
      ensures Valid() && titles == [] && files == map[]
    {
      titles := [];
      files := map[];
    }

    /** `list_entries()`: every title, in enumeration order. */
    method ListEntries() returns (ts: seq<string>)
      requires Valid()
      ensures ts == titles
      ensures forall t :: t in ts <==> t in files
    {
      ts := titles;
    }

    /** `get_entry(title)`: the stored text, or `None` when there is no entry
        under that key. */
    method GetEntry(title: string) returns (text: Option<string>)
      ensures text.Some? <==> title in files
      ensures text.Some? ==> text.value == files[title]
    {
      if title in files {
        text := Some(files[title]);
      } else {
        text := None;
      }
    }

    /** `save_entry(title, text)`: an upsert. The entry under `title` now
        holds `text`, no other entry changes, and a new title joins the end
        of the list. */
    method SaveEntry(title: string, text: string)
      requires Valid()
      modifies this
      ensures Valid()
      ensures files == old(files)[title := text]
      ensures titles == if title in old(files) then old(titles) else old(titles) + [title]
    {
      if title !in files {
        titles := titles + [title];
      }
      files := files[title := text];
    }
  }
}
