// The Python string built-ins that the encyclopedia views rely on, written as
// functions over `string` (a sequence of Unicode scalar values), each with a
// contract that says what the built-in returns.

module Wrappers {
  datatype Option<+T> = None | Some(value: T)
}

module PyStr {

  /** The characters for which Python's `str.isspace()` holds; `strip()`
      without arguments removes exactly these from both ends. */
  const Whitespace: set<char> := {
    '\t', '\n', '\U{000B}', '\U{000C}', '\r',
    '\U{001C}', '\U{001D}', '\U{001E}', '\U{001F}', ' ',
    '\U{0085}', '\U{00A0}', '\U{1680}',
    '\U{2000}', '\U{2001}', '\U{2002}', '\U{2003}', '\U{2004}', '\U{2005}',
    '\U{2006}', '\U{2007}', '\U{2008}', '\U{2009}', '\U{200A}',
    '\U{2028}', '\U{2029}', '\U{202F}', '\U{205F}', '\U{3000}'
  }

  /** `s.lstrip(chars)`: the longest suffix of `s` that does not start with
      one of `chars`; everything cut off is made of `chars`. */
  function LStrip(s: string, chars: set<char>): (r: string)
    ensures |r| <= |s| && r == s[|s| - |r|..]
    ensures forall i :: 0 <= i < |s| - |r| ==> s[i] in chars
    ensures r != [] ==> r[0] !in chars
    decreases |s|
  {
    if s != [] && s[0] in chars then LStrip(s[1..], chars) else s
  }

  /** One step of `lstrip`: a leading character from `chars` goes. */
  lemma LStripDrop(s: string, chars: set<char>)
    requires s != [] && s[0] in chars
    ensures LStrip(s, chars) == LStrip(s[1..], chars)
  {
  }

  /** `s.rstrip(chars)`: the longest prefix of `s` that does not end with one
      of `chars`; everything cut off is made of `chars`. */
  function RStrip(s: string, chars: set<char>): (r: string)
    ensures |r| <= |s| && r == s[..|r|]
    ensures forall i :: |r| <= i < |s| ==> s[i] in chars
    ensures r != [] ==> r[|r| - 1] !in chars
    decreases |s|
  {
    if s != [] && s[|s| - 1] in chars then RStrip(s[..|s| - 1], chars) else s
  }

  /** `s.strip()`: `s` without its leading and trailing whitespace; `s` is
      its own strip exactly when neither end is whitespace. */
  function Strip(s: string): (r: string)
    ensures |r| <= |s|
    ensures r != [] ==> r[0] !in Whitespace && r[|r| - 1] !in Whitespace
    ensures r == s <==> s == [] || (s[0] !in Whitespace && s[|s| - 1] !in Whitespace)
  {
    var left := LStrip(s, Whitespace);
    assert s != [] && s[0] !in Whitespace ==> left == s;
    var r := RStrip(left, Whitespace);
    assert left != [] && left[|left| - 1] !in Whitespace ==> r == left;
    r
  }

  /** `strip()` returns a contiguous slice of its argument. */
  lemma StripIsSlice(s: string) returns (a: nat)
    ensures a + |Strip(s)| <= |s| && Strip(s) == s[a..a + |Strip(s)|]
  {
    var left := LStrip(s, Whitespace);
    var r := RStrip(left, Whitespace);
    assert Strip(s) == r;
    a := |s| - |left|;
    assert left == s[a..];
    assert r == left[..|r|];
    SliceOfSuffix(s, a, |r|);
  }

  lemma SliceOfSuffix(s: string, a: nat, n: nat)
    requires a + n <= |s|
    ensures s[a..][..n] == s[a..a + n]
  {
  }

  /** Stripping only removes characters: whatever is left was in `s` ... */
  lemma StripChars(s: string)
    ensures forall c :: c in Strip(s) ==> c in s
  {
    var a := StripIsSlice(s);
    var r := Strip(s);
    forall c | c in r
      ensures c in s
    {
      var j :| 0 <= j < |r| && r[j] == c;
      assert s[a + j] == r[j];
    }
  }

  /** ... and only whitespace: every other character of `s` is still there. */
  lemma StripKeepsText(s: string, i: int)
    requires 0 <= i < |s| && s[i] !in Whitespace
    ensures var a := |s| - |LStrip(s, Whitespace)|;
      a <= i < a + |Strip(s)| && Strip(s)[i - a] == s[i]
  {
    var left := LStrip(s, Whitespace);
    var a := |s| - |left|;
    var r := RStrip(left, Whitespace);
    assert a <= i;
    assert left[i - a] == s[i];
    assert i - a < |r|;
    assert r[i - a] == s[i];
  }

  /** A leading whitespace character makes no difference to `strip()`. */
  lemma StripLeadingSpace(s: string)
    requires s != [] && s[0] in Whitespace
    ensures Strip(s) == Strip(s[1..])
  {
    LStripDrop(s, Whitespace);
    assert Strip(s) == RStrip(LStrip(s, Whitespace), Whitespace);
    assert Strip(s[1..]) == RStrip(LStrip(s[1..], Whitespace), Whitespace);
  }

  /** One leading whitespace character before a text with non-whitespace
      ends is all that `strip()` removes. */
  lemma StripOneLeading(s: string)
    requires |s| >= 2 && s[0] in Whitespace
    requires s[1] !in Whitespace && s[|s| - 1] !in Whitespace
    ensures Strip(s) == s[1..]
  {
    var t := s[1..];
    LStripDrop(s, Whitespace);
    assert t[0] !in Whitespace && t[|t| - 1] !in Whitespace;
    assert LStrip(t, Whitespace) == t;
  }

  /** `c.lower()` on ASCII letters; every other character is kept. */
  function LowerChar(c: char): char
  {
    if 'A' <= c <= 'Z' then (c as int + 32) as char else c
  }

  /** `s.lower()` (restricted to ASCII): the same length, character by
      character lower-cased. */
  function Lower(s: string): (r: string)
    ensures |r| == |s|
    ensures forall i :: 0 <= i < |s| ==> r[i] == LowerChar(s[i])
    decreases |s|
  {
    if s == [] then [] else [LowerChar(s[0])] + Lower(s[1..])
  }

  /** Lower-casing twice is lower-casing once, and no upper-case ASCII
      letter survives it. */
  lemma LowerIdempotent(s: string)
    ensures Lower(Lower(s)) == Lower(s)
    ensures forall i :: 0 <= i < |s| ==> !('A' <= Lower(s)[i] <= 'Z')
  {
    var l := Lower(s);
    forall i | 0 <= i < |s|
      ensures Lower(l)[i] == l[i] && !('A' <= l[i] <= 'Z')
    {
      assert l[i] == LowerChar(s[i]);
    }
  }

  /** `needle` occurs in `hay` starting at index `i`. */
  ghost predicate OccursAt(hay: string, needle: string, i: int)
  {
    0 <= i <= |hay| - |needle| && hay[i..i + |needle|] == needle
  }

  /** `needle in hay` for two strings: substring containment. */
  function Contains(hay: string, needle: string): (r: bool)
    ensures needle <= hay ==> r
    ensures r ==> |needle| <= |hay|
    decreases |hay|
  {
    needle <= hay || (hay != [] && Contains(hay[1..], needle))
  }

  lemma ShiftedSlice(s: string, j: int, n: int)
    requires s != [] && 0 <= j && 0 <= n && j + n <= |s| - 1
    ensures s[1..][j..j + n] == s[j + 1..j + 1 + n]
  {
    var a, b := s[1..][j..j + n], s[j + 1..j + 1 + n];
    forall m | 0 <= m < n
      ensures a[m] == b[m]
    {
      assert a[m] == s[1..][j + m] == s[j + 1 + m];
    }
  }

  /** An occurrence of `needle` in `hay` makes `Contains` hold ... */
  lemma {:induction false} OccurrenceContained(hay: string, needle: string, i: int)
    requires OccursAt(hay, needle, i)
    ensures Contains(hay, needle)
    decreases i
  {
    if i > 0 {
      ShiftedSlice(hay, i - 1, |needle|);
      OccurrenceContained(hay[1..], needle, i - 1);
    }
  }

  /** ... and when `Contains` holds there is an occurrence. */
  lemma {:induction false} ContainedOccurrence(hay: string, needle: string) returns (i: int)
    requires Contains(hay, needle)
    ensures OccursAt(hay, needle, i)
    decreases |hay|
  {
    if needle <= hay {
      i := 0;
    } else {
      var j := ContainedOccurrence(hay[1..], needle);
      i := j + 1;
      ShiftedSlice(hay, j, |needle|);
    }
  }

  /** `Contains` agrees with the textbook definition of a substring. */
  lemma ContainsIff(hay: string, needle: string)
    ensures Contains(hay, needle) <==> exists i :: OccursAt(hay, needle, i)
  {
    if Contains(hay, needle) {
      var i := ContainedOccurrence(hay, needle);
    }
    if exists i :: OccursAt(hay, needle, i) {
      var i :| OccursAt(hay, needle, i);
      OccurrenceContained(hay, needle, i);
    }
  }

  /** `s.split(sep, 1)`: `[s]` when `sep` does not occur, otherwise the text
      before the first `sep` and the text after it. */
  function SplitOnce(s: string, sep: char): (parts: seq<string>)
    ensures |parts| == 1 || |parts| == 2
    ensures |parts| == 1 <==> sep !in s
    ensures |parts| == 1 ==> parts[0] == s
    ensures |parts| == 2 ==> sep !in parts[0] && s == parts[0] + [sep] + parts[1]
    decreases |s|
  {
    if s == [] then [s]
    else if s[0] == sep then [[], s[1..]]
    else
      var p := SplitOnce(s[1..], sep);
      if |p| == 1 then [s] else [[s[0]] + p[0], p[1]]
  }

  /** The text before the first `sep` is determined by `s`: two ways of
      cutting `s` at a `sep` that has none before it are the same cut. */
  lemma SplitAtFirstUnique(s: string, sep: char, a: string, b: string, a': string, b': string)
    requires sep !in a && s == a + [sep] + b
    requires sep !in a' && s == a' + [sep] + b'
    ensures a == a' && b == b'
  {
    assert forall i :: 0 <= i < |a| ==> s[i] == a[i] != sep;
    assert forall i :: 0 <= i < |a'| ==> s[i] == a'[i] != sep;
    assert s[|a|] == sep && s[|a'|] == sep;
    assert |a| == |a'|;
    assert a == s[..|a|] == a';
    assert b == s[|a| + 1..] == b';
  }

  /** `s.replace(pat, rep)`: every occurrence of `pat`, found left to right
      without overlap, replaced by `rep`. */
  function Replace(s: string, pat: string, rep: string): (r: string)
    requires pat != []
    ensures |rep| <= |pat| ==> |r| <= |s|
    decreases |s|
  {
    if s == [] then []
    else if pat <= s then rep + Replace(s[|pat|..], pat, rep)
    else [s[0]] + Replace(s[1..], pat, rep)
  }

  /** A string in which `pat` does not occur is left as it is. */
  lemma {:induction false} ReplaceNoMatch(s: string, pat: string, rep: string)
    requires pat != [] && !Contains(s, pat)
    ensures Replace(s, pat, rep) == s
    decreases |s|
  {
    if s != [] {
      ReplaceNoMatch(s[1..], pat, rep);
    }
  }

  /** Replacing an occurrence by something strictly shorter shortens. */
  lemma {:induction false} ReplaceShortens(s: string, pat: string, rep: string)
    requires pat != [] && |rep| < |pat| && Contains(s, pat)
    ensures |Replace(s, pat, rep)| < |s|
    decreases |s|
  {
    if !(pat <= s) {
      ReplaceShortens(s[1..], pat, rep);
    }
  }

  /** Three line feeds in a row start at index `i` of `s`. */
  predicate TripleNewlineAt(s: string, i: int)
    requires 0 <= i && i + 2 < |s|
  {
    s[i] == '\n' && s[i + 1] == '\n' && s[i + 2] == '\n'
  }

  /** No window of three consecutive characters is all line feeds. */
  predicate NoTripleNewline(s: string)
  {
    forall i :: 0 <= i && i + 2 < |s| ==> !TripleNewlineAt(s, i)
  }

  /** Two strings without a run of three line feeds join into one without,
      as long as the seam is not a line feed on both sides. */
  lemma NoTripleNewlineConcat(a: string, b: string)
    requires NoTripleNewline(a) && NoTripleNewline(b)
    requires a == [] || b == [] || a[|a| - 1] != '\n' || b[0] != '\n'
    ensures NoTripleNewline(a + b)
  {
    var s := a + b;
    forall i | 0 <= i && i + 2 < |s|
      ensures !TripleNewlineAt(s, i)
    {
      if i + 2 < |a| {
        assert !TripleNewlineAt(a, i);
      } else if |a| <= i {
        assert !TripleNewlineAt(b, i - |a|);
      } else {
        assert s[|a| - 1] == a[|a| - 1] && s[|a|] == b[0];
      }
    }
  }

  /** The number of line feeds `s` starts with. */
  function LeadingNewlines(s: string): (k: nat)
    ensures k <= |s|
    ensures forall i :: 0 <= i < k ==> s[i] == '\n'
    ensures k < |s| ==> s[k] != '\n'
    decreases |s|
  {
    if s != [] && s[0] == '\n' then 1 + LeadingNewlines(s[1..]) else 0
  }

  /** `re.sub(r'\n{3,}', '\n\n', s)`: every maximal run of three or more
      line feeds becomes exactly two. Shorter runs and every other character
      stay; the first and the last character do not change. */
  function CollapseNewlines(s: string): (r: string)
    ensures NoTripleNewline(r)
    ensures |r| <= |s|
    ensures s != [] ==> r != [] && r[0] == s[0] && r[|r| - 1] == s[|s| - 1]
    decreases |s|
  {
    if s == [] then []
    else if s[0] != '\n' then
      var rest := CollapseNewlines(s[1..]);
      NoTripleNewlineConcat([s[0]], rest);
      [s[0]] + rest
    else
      var k := LeadingNewlines(s);
      var run := if k >= 3 then "\n\n" else s[..k];
      var rest := CollapseNewlines(s[k..]);
      NoTripleNewlineConcat(run, rest);
      run + rest
  }

  /** What follows a prefix of a string without a run of three line feeds
      has none either. */
  lemma NoTripleNewlineSuffix(s: string, k: nat)
    requires k <= |s| && NoTripleNewline(s)
    ensures NoTripleNewline(s[k..])
  {
    forall i | 0 <= i && i + 2 < |s[k..]|
      ensures !TripleNewlineAt(s[k..], i)
    {
      assert !TripleNewlineAt(s, k + i);
    }
  }

  /** A string without a run of three line feeds starts with at most two. */
  lemma ShortLeadingRun(s: string)
    requires NoTripleNewline(s)
    ensures LeadingNewlines(s) < 3
  {
    if |s| >= 3 {
      assert !TripleNewlineAt(s, 0);
    }
  }

  /** A string without a run of three line feeds is left as it is. */
  lemma {:induction false} CollapseNoTriple(s: string)
    requires NoTripleNewline(s)
    ensures CollapseNewlines(s) == s
    decreases |s|, 1
  {
    if s == [] {
    } else if s[0] != '\n' {
      CollapseNoTripleChar(s);
    } else {
      CollapseNoTripleRun(s);
    }
  }

  lemma {:induction false} CollapseNoTripleChar(s: string)
    requires NoTripleNewline(s) && s != [] && s[0] != '\n'
    ensures CollapseNewlines(s) == s
    decreases |s|, 0
  {
    assert CollapseNewlines(s) == [s[0]] + CollapseNewlines(s[1..]);
    NoTripleNewlineSuffix(s, 1);
    CollapseNoTriple(s[1..]);
  }

  lemma {:induction false} CollapseNoTripleRun(s: string)
    requires NoTripleNewline(s) && s != [] && s[0] == '\n'
    ensures CollapseNewlines(s) == s
    decreases |s|, 0
  {
    var k := LeadingNewlines(s);
    ShortLeadingRun(s);
    NoTripleNewlineSuffix(s, k);
    calc {
      CollapseNewlines(s);
    == { CollapseRun(s); }
      s[..k] + CollapseNewlines(s[k..]);
    == { CollapseNoTriple(s[k..]); }
      s[..k] + s[k..];
    == 
      s;
    }
  }

  /** `s` with every line feed removed. */
  function DropNewlines(s: string): (r: string)
    ensures '\n' !in r
    decreases |s|
  {
    if s == [] then []
    else if s[0] == '\n' then DropNewlines(s[1..])
    else [s[0]] + DropNewlines(s[1..])
  }

  /** Line feeds in front of `rest` leave nothing behind. */
  lemma {:induction false} DropNewlinesOfRun(run: string, rest: string)
    requires forall i :: 0 <= i < |run| ==> run[i] == '\n'
    ensures DropNewlines(run + rest) == DropNewlines(rest)
    decreases |run|
  {
    if run == [] {
      assert run + rest == rest;
    } else {
      assert (run + rest)[0] == '\n' && (run + rest)[1..] == run[1..] + rest;
      DropNewlinesOfRun(run[1..], rest);
    }
  }

  /** How `CollapseNewlines` treats a string that starts with a run of line
      feeds: the run, or two line feeds if it is longer than two, then the
      rest collapsed. */
  lemma CollapseRun(s: string)
    requires s != [] && s[0] == '\n'
    ensures var k := LeadingNewlines(s);
      CollapseNewlines(s) == (if k >= 3 then "\n\n" else s[..k]) + CollapseNewlines(s[k..])
  {
  }

  /** The leading run of `x + y` stops inside `x` unless `x` is all line
      feeds, in which case it goes on into `y`. */
  lemma {:induction false} LeadingNewlinesConcat(x: string, y: string)
    ensures LeadingNewlines(x + y) ==
      if LeadingNewlines(x) < |x| then LeadingNewlines(x) else |x| + LeadingNewlines(y)
    decreases |x|
  {
    if x == [] {
      assert x + y == y;
    } else if x[0] == '\n' {
      assert (x + y)[0] == '\n' && (x + y)[1..] == x[1..] + y;
      LeadingNewlinesConcat(x[1..], y);
    } else {
      assert (x + y)[0] == x[0];
    }
  }

  /** A run of line feeds, as the collapse sees it between two texts. */
  predicate IsNewlineRun(run: string)
  {
    forall i :: 0 <= i < |run| ==> run[i] == '\n'
  }

  /** A maximal run of three or more line feeds between two texts becomes
      exactly `"\n\n"`, and the texts on either side are collapsed on
      their own. */
  lemma {:induction false} CollapseLongRun(a: string, run: string, b: string)
    requires |run| >= 3 && IsNewlineRun(run)
    requires a == [] || a[|a| - 1] != '\n'
    requires b == [] || b[0] != '\n'
    ensures CollapseNewlines(a + run + b) == CollapseNewlines(a) + "\n\n" + CollapseNewlines(b)
    decreases |a|, 1
  {
    if a == [] {
      CollapseLongRunFirst(a, run, b);
    } else if a[0] != '\n' {
      CollapseLongRunChar(a, run, b);
    } else {
      CollapseLongRunAfterRun(a, run, b);
    }
  }

  lemma CollapseLongRunFirst(a: string, run: string, b: string)
    requires a == [] && |run| >= 3 && IsNewlineRun(run)
    requires b == [] || b[0] != '\n'
    ensures CollapseNewlines(a + run + b) == CollapseNewlines(a) + "\n\n" + CollapseNewlines(b)
  {
    var s := run + b;
    assert a + run == run;
    assert CollapseNewlines(a) == [];
    LeadingNewlinesConcat(run, b);
    assert LeadingNewlines(run) == |run|;
    assert LeadingNewlines(s) == |run|;
    assert s[0] == '\n' && s[|run|..] == b;
    CollapseRun(s);
  }

  lemma {:induction false} CollapseLongRunChar(a: string, run: string, b: string)
    requires |run| >= 3 && IsNewlineRun(run)
    requires a != [] && a[0] != '\n' && a[|a| - 1] != '\n'
    requires b == [] || b[0] != '\n'
    ensures CollapseNewlines(a + run + b) == CollapseNewlines(a) + "\n\n" + CollapseNewlines(b)
    decreases |a|, 0
  {
    var s, tail := a + run + b, a[1..];
    assert s[0] == a[0] && s[1..] == tail + run + b;
    assert CollapseNewlines(s) == [a[0]] + CollapseNewlines(tail + run + b);
    assert CollapseNewlines(a) == [a[0]] + CollapseNewlines(tail);
    CollapseLongRun(tail, run, b);
    ConcatRegroup([a[0]], CollapseNewlines(tail), "\n\n", CollapseNewlines(b));
  }

  /** Three line feeds between two letters become two. */
  lemma CollapseSample()
    ensures CollapseNewlines("a\n\n\nb") == "a\n\nb"
  {
    var a, run, b := "a", "\n\n\n", "b";
    assert a + run + b == "a\n\n\nb";
    assert CollapseNewlines(a) == a && CollapseNewlines(b) == b;
    CollapseLongRun(a, run, b);
  }

  /** A text that does not end with a line feed is not all line feeds. */
  lemma RunEndsInside(s: string)
    requires s != [] && s[|s| - 1] != '\n'
    ensures LeadingNewlines(s) < |s|
  {
    var last := s[|s| - 1];
    assert last != '\n';
  }

  /** What the collapse writes for the leading run of `x`. */
  function LeadImage(x: string): string
  {
    var j := LeadingNewlines(x);
    if j >= 3 then "\n\n" else x[..j]
  }

  /** When the leading run of `x` ends inside `x`, the collapse of `x + y`
      starts with the image of that run, whatever `y` is. */
  lemma CollapseRunPrefix(x: string, y: string)
    requires x != [] && x[0] == '\n' && LeadingNewlines(x) < |x|
    ensures CollapseNewlines(x + y) == LeadImage(x) + CollapseNewlines(x[LeadingNewlines(x)..] + y)
    ensures CollapseNewlines(x) == LeadImage(x) + CollapseNewlines(x[LeadingNewlines(x)..])
  {
    var j := LeadingNewlines(x);
    LeadingNewlinesConcat(x, y);
    assert (x + y)[0] == '\n';
    assert (x + y)[..j] == x[..j];
    assert (x + y)[j..] == x[j..] + y;
    CollapseRun(x + y);
    CollapseRun(x);
  }

  lemma {:induction false} CollapseLongRunAfterRun(a: string, run: string, b: string)
    requires |run| >= 3 && IsNewlineRun(run)
    requires a != [] && a[0] == '\n' && a[|a| - 1] != '\n'
    requires b == [] || b[0] != '\n'
    ensures CollapseNewlines(a + run + b) == CollapseNewlines(a) + "\n\n" + CollapseNewlines(b)
    decreases |a|, 0
  {
    RunEndsInside(a);
    var tail := a[LeadingNewlines(a)..];
    var lead, nl := LeadImage(a), "\n\n";
    var rest, cb := run + b, CollapseNewlines(b);
    CollapseRunPrefix(a, rest);
    CollapseLongRun(tail, run, b);
    var ct := CollapseNewlines(tail);
    ConcatAssoc(a, run, b);
    ConcatAssoc(tail, run, b);
    ConcatRegroup(lead, ct, nl, cb);
  }

  lemma ConcatAssoc(x: string, y: string, z: string)
    ensures x + y + z == x + (y + z)
  {
  }

  lemma ConcatRegroup(w: string, x: string, y: string, z: string)
    ensures w + (x + y + z) == (w + x) + y + z
  {
  }

  /** Collapsing removes line feeds and nothing else: the text between them
      is kept, in order. */
  lemma {:induction false} CollapseKeepsText(s: string)
    ensures DropNewlines(CollapseNewlines(s)) == DropNewlines(s)
    decreases |s|
  {
    if s == [] {
    } else if s[0] != '\n' {
      var rest := CollapseNewlines(s[1..]);
      assert CollapseNewlines(s) == [s[0]] + rest;
      assert ([s[0]] + rest)[0] == s[0] && ([s[0]] + rest)[1..] == rest;
      CollapseKeepsText(s[1..]);
    } else {
      var k := LeadingNewlines(s);
      var run := if k >= 3 then "\n\n" else s[..k];
      CollapseRun(s);
      DropNewlinesOfRun(run, CollapseNewlines(s[k..]));
      CollapseKeepsText(s[k..]);
      assert s == s[..k] + s[k..];
      DropNewlinesOfRun(s[..k], s[k..]);
    }
  }

  /** Collapsing leaves a string unchanged exactly when it has no run of
      three line feeds; in particular it is idempotent. */
  lemma CollapseFixpoints(s: string)
    ensures CollapseNewlines(s) == s <==> NoTripleNewline(s)
    ensures CollapseNewlines(CollapseNewlines(s)) == CollapseNewlines(s)
  {
    if NoTripleNewline(s) {
      CollapseNoTriple(s);
    }
    CollapseNoTriple(CollapseNewlines(s));
  }
}
