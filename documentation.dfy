/** The Javadoc and Spring helpers of the documentation generator: comment
    cleaning, the `@param`/`@return`/`@throws` tag scans over captured comment
    text, endpoint verb and path resolution over captured mapping annotations,
    the first-line search, the Spring summary of a source file and the
    parameter parsing of the method summary. */
module Documentation {
  import opened Text
  import CodeAnalyzer

  // ---------------------------------------------------------------------------
  // Comment cleaning
  // ---------------------------------------------------------------------------

  /** One line with a leading `^\s*\*\s?` removed: whitespace, a star and at most
      one more whitespace character. A line whose first non-blank character is not
      a star is unchanged. */
  function CleanLine(line: string): (r: string)
    ensures |r| <= |line| && r == line[|line| - |r|..]
  {
    var w := WsRun(line, 0);
    if w < |line| && line[w] == '*' then
      if w + 1 < |line| && IsSpace(line[w + 1]) then line[w + 2..] else line[w + 1..]
    else line
  }

  /** The kept lines: each line cleaned and stripped, blank ones dropped. */
  function CleanedLines(lines: seq<string>): (r: seq<string>)
    ensures |r| <= |lines|
    ensures forall i :: 0 <= i < |r| ==> r[i] != []
    decreases |lines|
  {
    if lines == [] then []
    else
      var c := Strip(CleanLine(lines[|lines| - 1]));
      CleanedLines(lines[..|lines| - 1]) + (if c != [] then [c] else [])
  }

  /** The cleaning loop: kept lines joined with single spaces. */
  method CleanJavadoc(doc: string) returns (cleaned: string)
    ensures cleaned == Join(" ", CleanedLines(Split(doc, '\n')))
  {
    var lines := Split(doc, '\n');
    var cleanedLines: seq<string> := [];
    for i := 0 to |lines|
      invariant cleanedLines == CleanedLines(lines[..i])
    {
      cleanedLines := KeepCleaned(cleanedLines, lines, i);
    }
    assert lines[..|lines|] == lines;
    cleaned := Join(" ", cleanedLines);
  }

  /** One loop step: the line loses its marker, is stripped, and is kept if
      anything is left. */
  method KeepCleaned(kept: seq<string>, lines: seq<string>, i: nat) returns (r: seq<string>)
    requires i < |lines| && kept == CleanedLines(lines[..i])
    ensures r == CleanedLines(lines[..i + 1])
  {
    CleanedLinesSnoc(lines, i);
    var line := CleanLine(lines[i]);
    r := kept;
    if Strip(line) != [] {
      r := r + [Strip(line)];
    }
  }

  lemma CleanedLinesSnoc(lines: seq<string>, i: nat)
    requires i < |lines|
    ensures CleanedLines(lines[..i + 1]) == CleanedLines(lines[..i]) +
      (if Strip(CleanLine(lines[i])) != [] then [Strip(CleanLine(lines[i]))] else [])
  {
    assert lines[..i + 1][..i] == lines[..i];
  }

  /** Every kept line is non-empty and neither begins nor ends with whitespace. */
  lemma {:induction false} CleanedLinesUnpadded(lines: seq<string>)
    ensures forall i :: 0 <= i < |CleanedLines(lines)| ==> Unpadded(CleanedLines(lines)[i])
    decreases |lines|
  {
    if lines != [] {
      CleanedLinesUnpadded(lines[..|lines| - 1]);
      StripEnds(CleanLine(lines[|lines| - 1]));
    }
  }

  /** The cleaned comment neither begins nor ends with whitespace, and it is empty
      exactly when no line has text left after cleaning. */
  lemma CleanJavadocUnpadded(doc: string)
    ensures var j := Join(" ", CleanedLines(Split(doc, '\n')));
      (j == [] <==> CleanedLines(Split(doc, '\n')) == []) && (j != [] ==> Unpadded(j))
  {
    var parts := CleanedLines(Split(doc, '\n'));
    CleanedLinesUnpadded(Split(doc, '\n'));
    JoinUnpadded(parts);
  }

  /** The comment marker goes: an indented `* text` line is cleaned to `text`,
      stripped. */
  lemma CleanStarLine(w: string, t: string)
    requires AllSpace(w)
    ensures Strip(CleanLine(w + "* " + t)) == Strip(t)
  {
    var line := w + "* " + t;
    WsRunOfSpace(line, w);
    assert line[|w|] == '*' && line[|w| + 1] == ' ';
    assert line[|w| + 2..] == t;
  }

  lemma {:induction false} WsRunOfSpace(line: string, w: string)
    requires AllSpace(w) && |w| < |line| && line[..|w|] == w && !IsSpace(line[|w|])
    ensures WsRun(line, 0) == |w|
  {
    WsRunFrom(line, 0, |w|);
  }

  lemma {:induction false} WsRunFrom(s: string, i: nat, j: nat)
    requires i <= j <= |s|
    requires forall k :: i <= k < j ==> IsSpace(s[k])
    requires j == |s| || !IsSpace(s[j])
    ensures WsRun(s, i) == j - i
    decreases j - i
  {
    if i < j {
      WsRunFrom(s, i + 1, j);
    }
  }

  /** Blank lines leave nothing behind. */
  lemma {:induction false} BlankLinesDropped(lines: seq<string>)
    requires forall i :: 0 <= i < |lines| ==> AllSpace(lines[i])
    ensures CleanedLines(lines) == []
    decreases |lines|
  {
    if lines != [] {
      var l := lines[|lines| - 1];
      BlankLinesDropped(lines[..|lines| - 1]);
      var c := CleanLine(l);
      assert forall k :: 0 <= k < |c| ==> c[k] == l[|l| - |c| + k];
      LStripAllSpace(c);
    }
  }

  // ---------------------------------------------------------------------------
  // Javadoc tags over the captured comment text
  // ---------------------------------------------------------------------------

  /** One `@param`/`@throws` entry: the word after the tag and its description. */
  datatype TagEntry = TagEntry(name: string, description: string)

  /** `tag\s+(\w+)\s+(.*)` read at `p`: the two capture groups and the end of the
      match. The whitespace runs and the word are maximal, and `.` stops at a line
      break. */
  function NamedTagAt(doc: string, tag: string, p: nat): (r: Option<(TagEntry, nat)>)
    requires p <= |doc|
    ensures r.Some? ==> p < r.value.1 <= |doc|
  {
    if OccursAt(doc, tag, p) then TagAfter(doc, p + |tag|) else None
  }

  function TagAfter(doc: string, a: nat): (r: Option<(TagEntry, nat)>)
    requires a <= |doc|
    ensures r.Some? ==> a < r.value.1 <= |doc|
  {
    var w1 := WsRun(doc, a);
    if w1 == 0 then None else TagWord(doc, a + w1)
  }

  function TagWord(doc: string, b: nat): (r: Option<(TagEntry, nat)>)
    requires b <= |doc|
    ensures r.Some? ==> b < r.value.1 <= |doc|
  {
    var n := WordRun(doc, b);
    if n == 0 then None else TagDescription(doc, b, b + n)
  }

  function TagDescription(doc: string, b: nat, c: nat): (r: Option<(TagEntry, nat)>)
    requires b <= c <= |doc|
    ensures r.Some? ==> c < r.value.1 <= |doc|
  {
    var w2 := WsRun(doc, c);
    if w2 == 0 then None
    else
      var e := LineEnd(doc, c + w2);
      Some((TagEntry(doc[b..c], doc[c + w2..e]), e))
  }

  /** `re.findall` of that pattern from `p`: after a match the search goes on at its
      end, otherwise one character further. */
  function NamedTags(doc: string, tag: string, p: nat): (r: seq<TagEntry>)
    requires p <= |doc|
    ensures |r| <= |doc| - p
    decreases |doc| - p
  {
    if p == |doc| then []
    else
      match NamedTagAt(doc, tag, p)
      case None => NamedTags(doc, tag, p + 1)
      case Some((t, e)) => [t] + NamedTags(doc, tag, e)
  }

  /** The entries with their descriptions stripped. */
  function Stripped(ts: seq<TagEntry>): (r: seq<TagEntry>)
    ensures |r| == |ts| && forall i :: 0 <= i < |ts| ==> r[i] == TagEntry(ts[i].name, Strip(ts[i].description))
  {
    seq(|ts|, i requires 0 <= i < |ts| => TagEntry(ts[i].name, Strip(ts[i].description)))
  }

  /** The `@param` entries: at most one per character, each naming a word. */
  function JavadocParams(doc: string): (r: seq<TagEntry>)
    ensures |r| <= |doc|
    ensures forall i :: 0 <= i < |r| ==> r[i].name != [] && '\n' !in r[i].name
  {
    NamedTagsRaw(doc, "@param", 0);
    Stripped(NamedTags(doc, "@param", 0))
  }

  /** The `@throws` entries: at most one per character, each naming a word. */
  function JavadocThrows(doc: string): (r: seq<TagEntry>)
    ensures |r| <= |doc|
    ensures forall i :: 0 <= i < |r| ==> r[i].name != [] && '\n' !in r[i].name
  {
    NamedTagsRaw(doc, "@throws", 0);
    Stripped(NamedTags(doc, "@throws", 0))
  }

  /** A name is a non-empty run of word characters; a description is one line. */
  predicate RawEntry(t: TagEntry) {
    t.name != [] && (forall k :: 0 <= k < |t.name| ==> IsWordChar(t.name[k])) && '\n' !in t.description
  }

  /** A name is a non-empty run of word characters; a description is one line,
      stripped. */
  predicate WellFormedEntry(t: TagEntry) {
    RawEntry(t) && (t.description == [] || (!IsSpace(t.description[0]) && !IsSpace(t.description[|t.description| - 1])))
  }

  lemma StripNoNewline(s: string)
    requires '\n' !in s
    ensures '\n' !in Strip(s)
  {
    var t := Strip(s);
    var a := StripOffset(s);
    assert forall k :: 0 <= k < |t| ==> t[k] == s[a + k];
  }

  lemma NamedTagAtRaw(doc: string, tag: string, p: nat)
    requires p <= |doc| && NamedTagAt(doc, tag, p).Some?
    ensures RawEntry(NamedTagAt(doc, tag, p).value.0)
  {
    var a := p + |tag|;
    assert NamedTagAt(doc, tag, p) == TagAfter(doc, a);
    var b := a + WsRun(doc, a);
    TagAfterStep(doc, a, b);
    TagWordRaw(doc, b);
  }

  lemma TagWordRaw(doc: string, b: nat)
    requires b <= |doc| && TagWord(doc, b).Some?
    ensures RawEntry(TagWord(doc, b).value.0)
  {
    var c := b + WordRun(doc, b);
    TagWordStep(doc, b, c);
    TagDescriptionRaw(doc, b, c);
  }

  lemma TagDescriptionRaw(doc: string, b: nat, c: nat)
    requires b < c <= |doc| && forall k :: b <= k < c ==> IsWordChar(doc[k])
    requires TagDescription(doc, b, c).Some?
    ensures RawEntry(TagDescription(doc, b, c).value.0)
  {
    var d := c + WsRun(doc, c);
    var e := LineEnd(doc, d);
    var t := TagDescription(doc, b, c).value.0;
    assert t == TagEntry(doc[b..c], doc[d..e]);
    assert forall k :: 0 <= k < |t.name| ==> t.name[k] == doc[b + k];
    assert forall k :: 0 <= k < |t.description| ==> t.description[k] == doc[d + k];
  }

  lemma {:induction false} NamedTagsRaw(doc: string, tag: string, p: nat)
    requires p <= |doc|
    ensures forall i :: 0 <= i < |NamedTags(doc, tag, p)| ==> RawEntry(NamedTags(doc, tag, p)[i])
    decreases |doc| - p
  {
    if p < |doc| {
      match NamedTagAt(doc, tag, p)
      case None => NamedTagsRaw(doc, tag, p + 1);
      case Some((t, e)) =>
        NamedTagAtRaw(doc, tag, p);
        NamedTagsRaw(doc, tag, e);
    }
  }

  /** Every `@param` and `@throws` entry is well formed. */
  lemma TagEntriesWellFormed(doc: string)
    ensures forall i :: 0 <= i < |JavadocParams(doc)| ==> WellFormedEntry(JavadocParams(doc)[i])
    ensures forall i :: 0 <= i < |JavadocThrows(doc)| ==> WellFormedEntry(JavadocThrows(doc)[i])
  {
    NamedTagsRaw(doc, "@param", 0);
    NamedTagsRaw(doc, "@throws", 0);
    StrippedWellFormed(NamedTags(doc, "@param", 0));
    StrippedWellFormed(NamedTags(doc, "@throws", 0));
  }

  lemma StrippedWellFormed(ts: seq<TagEntry>)
    ensures (forall i :: 0 <= i < |ts| ==> RawEntry(ts[i])) ==> forall i :: 0 <= i < |ts| ==> WellFormedEntry(Stripped(ts)[i])
  {
    if forall i :: 0 <= i < |ts| ==> RawEntry(ts[i]) {
      forall i | 0 <= i < |ts|
        ensures WellFormedEntry(Stripped(ts)[i])
      {
        StripNoNewline(ts[i].description);
        StripEnds(ts[i].description);
      }
    }
  }

  /** Without the tag in the text there are no entries. */
  lemma {:induction false} NamedTagsAbsent(doc: string, tag: string, p: nat)
    requires p <= |doc| && !Contains(doc, tag)
    ensures NamedTags(doc, tag, p) == []
    decreases |doc| - p
  {
    if p < |doc| {
      if OccursAt(doc, tag, p) {
        ContainsFromIndex(doc, tag, p);
      }
      NamedTagsAbsent(doc, tag, p + 1);
    }
  }

  /** One tag line `tag name description`: the scan reads that name and, once
      stripped, that description. */
  lemma NamedTagLine(tag: string, name: string, desc: string)
    requires name != [] && (forall k :: 0 <= k < |name| ==> IsWordChar(name[k]))
    requires '\n' !in desc
    ensures var doc := tag + " " + name + " " + desc;
      NamedTagAt(doc, tag, 0).Some? && NamedTagAt(doc, tag, 0).value.0.name == name
      && Strip(NamedTagAt(doc, tag, 0).value.0.description) == Strip(desc)
  {
    var doc := tag + " " + name + " " + desc;
    var c := |tag| + 1 + |name|;
    TagLineRuns(doc, tag, name, desc, c);
    var d := c + WsRun(doc, c);
    TagLineRest(doc, c, d, desc);
    NamedTagAtParts(doc, tag, name, c, d);
  }

  lemma NamedTagAtParts(doc: string, tag: string, name: string, c: nat, d: nat)
    requires OccursAt(doc, tag, 0) && WsRun(doc, |tag|) == 1 && WordRun(doc, |tag| + 1) == |name| && name != []
    requires c == |tag| + 1 + |name| && doc[|tag| + 1..c] == name
    requires WsRun(doc, c) >= 1 && d == c + WsRun(doc, c)
    ensures NamedTagAt(doc, tag, 0) == Some((TagEntry(name, doc[d..LineEnd(doc, d)]), LineEnd(doc, d)))
  {
    var a, b := |tag|, |tag| + 1;
    assert NamedTagAt(doc, tag, 0) == TagAfter(doc, a);
    TagAfterStep(doc, a, b);
    TagWordStep(doc, b, c);
    TagDescriptionStep(doc, b, c, d, name);
  }

  lemma {:induction false} TagAfterStep(doc: string, a: nat, b: nat)
    requires a < b <= |doc| && WsRun(doc, a) == b - a
    ensures TagAfter(doc, a) == TagWord(doc, b)
  {
  }

  lemma TagWordStep(doc: string, b: nat, c: nat)
    requires b <= |doc| && WordRun(doc, b) >= 1 && c == b + WordRun(doc, b)
    ensures TagWord(doc, b) == TagDescription(doc, b, c)
  {
  }

  lemma TagDescriptionStep(doc: string, b: nat, c: nat, d: nat, name: string)
    requires b <= c <= |doc| && WsRun(doc, c) >= 1 && d == c + WsRun(doc, c) && doc[b..c] == name
    ensures TagDescription(doc, b, c) == Some((TagEntry(name, doc[d..LineEnd(doc, d)]), LineEnd(doc, d)))
  {
  }

  lemma TagLineRuns(doc: string, tag: string, name: string, desc: string, c: nat)
    requires doc == tag + " " + name + " " + desc && c == |tag| + 1 + |name|
    requires name != [] && (forall k :: 0 <= k < |name| ==> IsWordChar(name[k]))
    ensures c < |doc| && OccursAt(doc, tag, 0) && WsRun(doc, |tag|) == 1 && WordRun(doc, |tag| + 1) == |name|
      && doc[|tag| + 1..c] == name && WsRun(doc, c) >= 1 && doc[c + 1..] == desc
  {
    var a := |tag|;
    var b := a + 1;
    assert doc[..|tag|] == tag;
    assert doc[a] == ' ' && doc[b] == name[0] && doc[c] == ' ';
    WsRunFrom(doc, a, b);
    assert forall k :: b <= k < c ==> doc[k] == name[k - b];
    WordRunFrom(doc, b, c);
    assert doc[b..c] == name;
    assert doc[c + 1..] == desc;
  }

  lemma TagLineRest(doc: string, c: nat, d: nat, desc: string)
    requires c < d <= |doc| && d == c + WsRun(doc, c) && doc[c + 1..] == desc && '\n' !in desc
    ensures LineEnd(doc, d) == |doc| && Strip(doc[d..LineEnd(doc, d)]) == Strip(desc)
  {
    TagLineEnds(doc, c, d, desc);
    LStripSkip(doc, c + 1, d);
    assert doc[d..|doc|] == doc[d..];
  }

  lemma TagLineEnds(doc: string, c: nat, d: nat, desc: string)
    requires c < d <= |doc| && doc[c + 1..] == desc && '\n' !in desc
    ensures LineEnd(doc, d) == |doc|
  {
    forall k | d <= k < |doc|
      ensures doc[k] != '\n'
    {
      assert doc[k] == desc[k - c - 1];
    }
    LineEndFrom(doc, d);
  }

  lemma {:induction false} WordRunFrom(s: string, i: nat, j: nat)
    requires i <= j <= |s|
    requires forall k :: i <= k < j ==> IsWordChar(s[k])
    requires j == |s| || !IsWordChar(s[j])
    ensures WordRun(s, i) == j - i
    decreases j - i
  {
    if i < j {
      WordRunFrom(s, i + 1, j);
    }
  }

  /** The whitespace run starting at `i - 1` continues the one at `i`. */
  lemma WsRunPrefix(s: string, i: nat)
    requires 0 < i <= |s| && IsSpace(s[i - 1])
    ensures WsRun(s, i - 1) == 1 + WsRun(s, i)
  {
  }

  lemma {:induction false} LineEndFrom(s: string, i: nat)
    requires i <= |s| && '\n' !in s[i..]
    ensures LineEnd(s, i) == |s|
    decreases |s| - i
  {
    if i < |s| {
      assert s[i] == s[i..][0];
      assert s[i + 1..] == s[i..][1..];
      LineEndFrom(s, i + 1);
    }
  }

  /** Skipping whitespace before stripping changes nothing. */
  lemma LStripSkip(s: string, i: nat, d: nat)
    requires i <= d <= |s| && forall k :: i <= k < d ==> IsSpace(s[k])
    ensures Strip(s[d..]) == Strip(s[i..])
  {
    assert s[i..] == s[i..d] + s[d..];
    StripSpacePrefix(s[i..d], s[d..]);
  }

  /** `@return\s+(.*)` at `p`: the capture, the rest of the line after the whitespace. */
  function ReturnAt(doc: string, p: nat): (r: Option<string>)
    requires p <= |doc|
    ensures r.Some? ==> forall k :: 0 <= k < |r.value| ==> r.value[k] != '\n'
  {
    if OccursAt(doc, "@return", p) && WsRun(doc, p + 7) > 0 then
      var q := p + 7 + WsRun(doc, p + 7);
      Some(doc[q..LineEnd(doc, q)])
    else None
  }

  /** The first `@return` followed by whitespace at or after `p` (`re.search`). */
  function FindReturn(doc: string, p: nat): (r: Option<string>)
    requires p <= |doc|
    ensures r.Some? ==> forall k :: 0 <= k < |r.value| ==> r.value[k] != '\n'
    decreases |doc| - p
  {
    if ReturnAt(doc, p).Some? then ReturnAt(doc, p)
    else if p == |doc| then None
    else FindReturn(doc, p + 1)
  }

  /** The search fails exactly when no position from `p` on reads a `@return`. */
  lemma {:induction false} FindReturnNone(doc: string, p: nat)
    requires p <= |doc|
    ensures FindReturn(doc, p).None? <==> forall q :: p <= q <= |doc| ==> ReturnAt(doc, q).None?
    decreases |doc| - p
  {
    if ReturnAt(doc, p).None? && p < |doc| {
      FindReturnNone(doc, p + 1);
    }
  }

  /** The search is leftmost: what it finds is read at a position before which no
      position reads a `@return`. */
  lemma {:induction false} FindReturnFirst(doc: string, p: nat)
    requires p <= |doc|
    ensures FindReturn(doc, p).Some? ==> exists q :: (p <= q <= |doc| && ReturnAt(doc, q) == FindReturn(doc, p)
      && forall q' :: p <= q' < q ==> ReturnAt(doc, q').None?)
    decreases |doc| - p
  {
    if ReturnAt(doc, p).Some? {
      assert ReturnAt(doc, p) == FindReturn(doc, p);
    } else if p < |doc| {
      FindReturnFirst(doc, p + 1);
      if FindReturn(doc, p + 1).Some? {
        var q :| p + 1 <= q <= |doc| && ReturnAt(doc, q) == FindReturn(doc, p + 1)
          && forall q' :: p + 1 <= q' < q ==> ReturnAt(doc, q').None?;
        assert FindReturn(doc, p) == FindReturn(doc, p + 1);
        assert forall q' :: p <= q' < q ==> ReturnAt(doc, q').None?;
      }
    }
  }

  /** The stripped description of the first `@return`. */
  function JavadocReturn(doc: string): (r: Option<string>)
    ensures r.Some? <==> FindReturn(doc, 0).Some?
    ensures r.Some? ==> '\n' !in r.value && (r.value == [] || Unpadded(r.value))
  {
    match FindReturn(doc, 0)
    case None => None
    case Some(g) =>
      assert '\n' !in g;
      StripNoNewline(g);
      StripEnds(g);
      Some(Strip(g))
  }

  /** No `@return` in the comment gives None. */
  lemma JavadocReturnAbsent(doc: string)
    requires !Contains(doc, "@return")
    ensures JavadocReturn(doc).None?
  {
    forall q | 0 <= q <= |doc|
      ensures ReturnAt(doc, q).None?
    {
      if OccursAt(doc, "@return", q) {
        ContainsFromIndex(doc, "@return", q);
      }
    }
    FindReturnNone(doc, 0);
  }

  /** A comment that is one `@return` line gives its stripped description. */
  lemma JavadocReturnLine(desc: string)
    requires '\n' !in desc
    ensures JavadocReturn("@return " + desc) == Some(Strip(desc))
  {
    var s := "@return " + desc;
    assert s[..7] == "@return";
    assert s[7] == ' ';
    assert s[8..] == desc;
    WsRunPrefix(s, 8);
    var q := 7 + WsRun(s, 7);
    ReturnLineRest(s, q, desc);
    ReturnAtStart(s, q);
  }

  /** A comment that starts with `@return` and whitespace: the search stops at 0. */
  lemma ReturnAtStart(s: string, q: nat)
    requires OccursAt(s, "@return", 0) && WsRun(s, 7) > 0 && q == 7 + WsRun(s, 7)
    ensures FindReturn(s, 0) == Some(s[q..LineEnd(s, q)])
  {
    assert ReturnAt(s, 0) == Some(s[q..LineEnd(s, q)]);
  }

  lemma ReturnLineRest(s: string, q: nat, desc: string)
    requires 8 <= q <= |s| && s[8..] == desc && '\n' !in desc
    requires forall k :: 8 <= k < q ==> IsSpace(s[k])
    ensures LineEnd(s, q) == |s| && Strip(s[q..LineEnd(s, q)]) == Strip(desc)
  {
    assert forall k :: 0 <= k < |s[q..]| ==> s[q..][k] == desc[q - 8 + k];
    LineEndFrom(s, q);
    LStripSkip(s, 8, q);
    assert s[q..|s|] == s[q..];
  }

  // ---------------------------------------------------------------------------
  // Endpoint path and HTTP verb over the captured mapping annotation
  // ---------------------------------------------------------------------------

  predicate IsQuote(c: char) {
    c == '"' || c == '\''
  }

  /** Length of the run of non-quote characters from `i`. */
  function QuoteFreeRun(s: string, i: nat): (n: nat)
    requires i <= |s|
    ensures i + n <= |s|
    ensures forall k :: i <= k < i + n ==> !IsQuote(s[k])
    ensures i + n == |s| || IsQuote(s[i + n])
    decreases |s| - i
  {
    if i < |s| && !IsQuote(s[i]) then 1 + QuoteFreeRun(s, i + 1) else 0
  }

  /** `["']([^"']+)["']` at `j`: a quote, a non-empty quote-free run, a quote. */
  function QuotedAt(s: string, j: nat): (r: Option<string>)
    requires j <= |s|
    ensures r.Some? ==> r.value != [] && forall k :: 0 <= k < |r.value| ==> !IsQuote(r.value[k])
  {
    if j < |s| && IsQuote(s[j]) then
      var n := QuoteFreeRun(s, j + 1);
      if n > 0 && j + 1 + n < |s| then
        Some(s[j + 1..j + 1 + n])
      else None
    else None
  }

  /** The first quoted literal at or after `p` (`re.search`). */
  function FirstQuoted(s: string, p: nat): (r: Option<string>)
    requires p <= |s|
    ensures r.Some? ==> r.value != [] && forall k :: 0 <= k < |r.value| ==> !IsQuote(r.value[k])
    decreases |s| - p
  {
    if QuotedAt(s, p).Some? then QuotedAt(s, p)
    else if p == |s| then None
    else FirstQuoted(s, p + 1)
  }

  /** The search finds the leftmost quoted literal: none exactly when there is none
      at or after `p`, otherwise one at some `j` with none before it. */
  lemma FirstQuotedSpec(s: string, p: nat)
    requires p <= |s|
    ensures FirstQuoted(s, p).None? <==> forall j :: p <= j <= |s| ==> QuotedAt(s, j).None?
    ensures FirstQuoted(s, p).Some? ==> exists j :: (p <= j <= |s| && QuotedAt(s, j) == FirstQuoted(s, p)
      && forall i :: p <= i < j ==> QuotedAt(s, i).None?)
  {
    FirstQuotedNone(s, p);
    if FirstQuoted(s, p).Some? {
      var j := FirstQuotedIndex(s, p);
    }
  }

  lemma {:induction false} FirstQuotedNone(s: string, p: nat)
    requires p <= |s|
    ensures FirstQuoted(s, p).None? <==> forall j :: p <= j <= |s| ==> QuotedAt(s, j).None?
    decreases |s| - p
  {
    if QuotedAt(s, p).None? && p < |s| {
      FirstQuotedNone(s, p + 1);
    }
  }

  /** Where the found literal starts. */
  lemma {:induction false} FirstQuotedIndex(s: string, p: nat) returns (j: nat)
    requires p <= |s| && FirstQuoted(s, p).Some?
    ensures p <= j <= |s| && QuotedAt(s, j) == FirstQuoted(s, p)
    ensures forall i :: p <= i < j ==> QuotedAt(s, i).None?
    decreases |s| - p
  {
    if QuotedAt(s, p).Some? {
      j := p;
    } else {
      j := FirstQuotedIndex(s, p + 1);
    }
  }

  /** The endpoint path: the first quoted literal, or "". */
  function EndpointPath(annotation: string): (r: string)
    ensures r == [] <==> FirstQuoted(annotation, 0).None?
    ensures forall k :: 0 <= k < |r| ==> !IsQuote(r[k])
  {
    match FirstQuoted(annotation, 0)
    case None => []
    case Some(v) => v
  }

  /** A literal after quote-free text is the path. */
  lemma EndpointPathOf(pre: string, v: string, post: string)
    requires forall k :: 0 <= k < |pre| ==> !IsQuote(pre[k])
    requires v != [] && forall k :: 0 <= k < |v| ==> !IsQuote(v[k])
    ensures EndpointPath(pre + "\"" + v + "\"" + post) == v
  {
    var s := pre + "\"" + v + "\"" + post;
    var j := |pre|;
    assert s[j] == '"';
    forall i | 0 <= i < j
      ensures QuotedAt(s, i).None?
    {
      assert s[i] == pre[i];
    }
    assert forall k :: j + 1 <= k < j + 1 + |v| ==> s[k] == v[k - j - 1];
    assert s[j + 1 + |v|] == '"';
    QuoteFreeRunFrom(s, j + 1, j + 1 + |v|);
    assert s[j + 1..j + 1 + |v|] == v;
    FirstQuotedSkip(s, 0, j);
  }

  lemma {:induction false} QuoteFreeRunFrom(s: string, i: nat, j: nat)
    requires i <= j <= |s|
    requires forall k :: i <= k < j ==> !IsQuote(s[k])
    requires j == |s| || IsQuote(s[j])
    ensures QuoteFreeRun(s, i) == j - i
    decreases j - i
  {
    if i < j {
      QuoteFreeRunFrom(s, i + 1, j);
    }
  }

  lemma {:induction false} FirstQuotedSkip(s: string, p: nat, j: nat)
    requires p <= j <= |s|
    requires forall i :: p <= i < j ==> QuotedAt(s, i).None?
    ensures FirstQuoted(s, p) == FirstQuoted(s, j)
    decreases j - p
  {
    if p < j {
      FirstQuotedSkip(s, p + 1, j);
    }
  }

  /** The first quoted literal at or after `j` that no `{` precedes (the lazy
      `[^{]*?` followed by the quoted literal). */
  function QuoteBeforeBrace(s: string, j: nat): (r: Option<string>)
    requires j <= |s|
    ensures r.Some? ==> r.value != [] && forall k :: 0 <= k < |r.value| ==> !IsQuote(r.value[k])
    decreases |s| - j
  {
    if j == |s| then None
    else if QuotedAt(s, j).Some? then QuotedAt(s, j)
    else if s[j] == '{' then None
    else QuoteBeforeBrace(s, j + 1)
  }

  /** `method\s*=\s*[^{]*?["']([^"']+)["']` at `p`. */
  function MethodValueAt(s: string, p: nat): (r: Option<string>)
    requires p <= |s|
    ensures r.Some? ==> r.value != [] && forall k :: 0 <= k < |r.value| ==> !IsQuote(r.value[k])
  {
    if !OccursAt(s, "method", p) then None
    else
      var a := p + 6 + WsRun(s, p + 6);
      if a < |s| && s[a] == '=' then QuoteBeforeBrace(s, a + 1 + WsRun(s, a + 1)) else None
  }

  /** The first `method=` value at or after `p` (`re.search`). */
  function MethodValue(s: string, p: nat): (r: Option<string>)
    requires p <= |s|
    ensures r.Some? ==> r.value != [] && forall k :: 0 <= k < |r.value| ==> !IsQuote(r.value[k])
    decreases |s| - p
  {
    if MethodValueAt(s, p).Some? then MethodValueAt(s, p)
    else if p == |s| then None
    else MethodValue(s, p + 1)
  }

  /** The verb chain on the annotation text: POST, PUT, DELETE and PATCH mappings
      in that order, then a request mapping's upper-cased `method=` value, GET
      otherwise. */
  function HttpVerb(annotation: string): (r: string)
    ensures r != []
    ensures r in ["POST", "PUT", "DELETE", "PATCH", "GET"]
      || (MethodValue(annotation, 0).Some? && r == Upper(MethodValue(annotation, 0).value))
  {
    if Contains(annotation, "@PostMapping") then "POST"
    else if Contains(annotation, "@PutMapping") then "PUT"
    else if Contains(annotation, "@DeleteMapping") then "DELETE"
    else if Contains(annotation, "@PatchMapping") then "PATCH"
    else if Contains(annotation, "@RequestMapping") then
      match MethodValue(annotation, 0)
      case None => "GET"
      case Some(v) => Upper(v)
    else "GET"
  }

  /** The verb chain, link by link: each mapping name decides the verb when no
      earlier one occurs; a request mapping takes its upper-cased `method=` value,
      or GET; without any of the names the verb stays GET. */
  lemma HttpVerbCases(a: string)
    ensures Contains(a, "@PostMapping") ==> HttpVerb(a) == "POST"
    ensures (!Contains(a, "@PostMapping") && Contains(a, "@PutMapping")) ==> HttpVerb(a) == "PUT"
    ensures (!Contains(a, "@PostMapping") && !Contains(a, "@PutMapping") && Contains(a, "@DeleteMapping"))
      ==> HttpVerb(a) == "DELETE"
    ensures (!Contains(a, "@PostMapping") && !Contains(a, "@PutMapping") && !Contains(a, "@DeleteMapping")
             && Contains(a, "@PatchMapping"))
      ==> HttpVerb(a) == "PATCH"
    ensures (!Contains(a, "@PostMapping") && !Contains(a, "@PutMapping") && !Contains(a, "@DeleteMapping")
             && !Contains(a, "@PatchMapping") && Contains(a, "@RequestMapping"))
      ==> HttpVerb(a) == (if MethodValue(a, 0).Some? then Upper(MethodValue(a, 0).value) else "GET")
    ensures (!Contains(a, "@PostMapping") && !Contains(a, "@PutMapping") && !Contains(a, "@DeleteMapping")
             && !Contains(a, "@PatchMapping") && !Contains(a, "@RequestMapping"))
      ==> HttpVerb(a) == "GET"
    ensures HttpVerb(a) != []
  {
  }

  /** A `@PostMapping` anywhere in the annotation wins over every later rule. */
  lemma PostMappingWins(pre: string, post: string)
    ensures HttpVerb(pre + "@PostMapping" + post) == "POST"
  {
    var s := pre + "@PostMapping" + post;
    assert s[|pre|..|pre| + 12] == "@PostMapping";
    ContainsFromIndex(s, "@PostMapping", |pre|);
  }

  /** In a text whose only `@` is its first character, a name starting with `@`
      occurs exactly when the text starts with it. */
  lemma AtStartOnly(s: string, p: string)
    requires p != [] && p[0] == '@' && forall k :: 0 < k < |s| ==> s[k] != '@'
    ensures Contains(s, p) <==> OccursAt(s, p, 0)
  {
    ContainsAt(s, p);
    if Contains(s, p) {
      var i: nat :| OccursAt(s, p, i);
      assert s[i..i + |p|][0] == s[i];
    }
  }

  lemma LeadingAtOnly(head: string, rest: string)
    requires head != [] && '@' !in head[1..] && '@' !in rest
    ensures forall k :: 0 < k < |head + rest| ==> (head + rest)[k] != '@'
  {
    forall k | 0 < k < |head + rest|
      ensures (head + rest)[k] != '@'
    {
      if k < |head| {
        assert head[1..][k - 1] == head[k];
      } else {
        assert (head + rest)[k] == rest[k - |head|];
      }
    }
  }

  lemma NotAtStart(s: string, p: string, i: nat)
    requires i < |p| && i < |s| && s[i] != p[i]
    ensures !OccursAt(s, p, 0)
  {
  }

  /** A mapping name that differs from the text's only annotation `head` at
      position `i` does not occur in the text. */
  lemma MappingAbsent(head: string, rest: string, p: string, i: nat)
    requires head != [] && head[0] == '@' && '@' !in head[1..] && '@' !in rest
    requires p != [] && p[0] == '@' && i < |head| && i < |p| && head[i] != p[i]
    ensures !Contains(head + rest, p)
  {
    LeadingAtOnly(head, rest);
    AtStartOnly(head + rest, p);
    NotAtStart(head + rest, p, i);
  }

  lemma MappingPresent(head: string, rest: string)
    ensures Contains(head + rest, head)
  {
    assert (head + rest)[..|head|] == head;
    ContainsFromIndex(head + rest, head, 0);
  }

  /** `@PutMapping` with no other annotation in the text gives PUT. */
  lemma PutMappingVerb(rest: string)
    requires '@' !in rest
    ensures HttpVerb("@PutMapping" + rest) == "PUT"
  {
    MappingAbsent("@PutMapping", rest, "@PostMapping", 2);
    MappingPresent("@PutMapping", rest);
  }

  /** `@DeleteMapping` with no other annotation in the text gives DELETE. */
  lemma DeleteMappingVerb(rest: string)
    requires '@' !in rest
    ensures HttpVerb("@DeleteMapping" + rest) == "DELETE"
  {
    MappingAbsent("@DeleteMapping", rest, "@PostMapping", 1);
    MappingAbsent("@DeleteMapping", rest, "@PutMapping", 1);
    MappingPresent("@DeleteMapping", rest);
  }

  /** `@PatchMapping` with no other annotation in the text gives PATCH. */
  lemma PatchMappingVerb(rest: string)
    requires '@' !in rest
    ensures HttpVerb("@PatchMapping" + rest) == "PATCH"
  {
    MappingAbsent("@PatchMapping", rest, "@PostMapping", 2);
    MappingAbsent("@PatchMapping", rest, "@PutMapping", 2);
    MappingAbsent("@PatchMapping", rest, "@DeleteMapping", 1);
    MappingPresent("@PatchMapping", rest);
  }

  /** `@GetMapping` names none of the other verbs, so it keeps GET. */
  lemma GetMappingVerb(rest: string)
    requires '@' !in rest
    ensures HttpVerb("@GetMapping" + rest) == "GET"
  {
    MappingAbsent("@GetMapping", rest, "@PostMapping", 1);
    MappingAbsent("@GetMapping", rest, "@PutMapping", 1);
    MappingAbsent("@GetMapping", rest, "@DeleteMapping", 1);
    MappingAbsent("@GetMapping", rest, "@PatchMapping", 1);
    MappingAbsent("@GetMapping", rest, "@RequestMapping", 1);
  }

  /** A lone `@RequestMapping` takes its upper-cased `method=` value, or GET. */
  lemma RequestMappingVerb(rest: string)
    requires '@' !in rest
    ensures var s := "@RequestMapping" + rest;
      HttpVerb(s) == (if MethodValue(s, 0).Some? then Upper(MethodValue(s, 0).value) else "GET")
  {
    MappingAbsent("@RequestMapping", rest, "@PostMapping", 1);
    MappingAbsent("@RequestMapping", rest, "@PutMapping", 1);
    MappingAbsent("@RequestMapping", rest, "@DeleteMapping", 1);
    MappingAbsent("@RequestMapping", rest, "@PatchMapping", 1);
    MappingPresent("@RequestMapping", rest);
  }

  /** `@RequestMapping(method = ... "v" ...)`: whatever quote-free, brace-free text
      stands between `method = ` and the first quoted literal is skipped, and the
      verb is that literal upper-cased. */
  lemma RequestMappingMethodVerb(mid: string, v: string, post: string)
    requires forall k :: 0 <= k < |mid| ==> !IsQuote(mid[k]) && mid[k] != '{'
    requires v != [] && forall k :: 0 <= k < |v| ==> !IsQuote(v[k])
    requires '@' !in mid && '@' !in v && '@' !in post
    ensures HttpVerb("@RequestMapping(" + "method = " + mid + "\"" + v + "\"" + post) == Upper(v)
  {
    var rest := "(" + "method = " + mid + "\"" + v + "\"" + post;
    assert "@RequestMapping(" + "method = " + mid + "\"" + v + "\"" + post == "@RequestMapping" + rest;
    RequestMappingVerb(rest);
    MethodValueOf("@RequestMapping(", mid, v, post);
  }

  /** A `@DeleteMapping("path")` endpoint, as in the repository's own
      `@DeleteMapping("/users/{id}")` case, is a DELETE on that path. */
  lemma DeleteMappingEndpoint(path: string)
    requires path != [] && '@' !in path && forall k :: 0 <= k < |path| ==> !IsQuote(path[k])
    ensures HttpVerb("@DeleteMapping" + "(" + "\"" + path + "\"" + ")") == "DELETE"
    ensures EndpointPath("@DeleteMapping" + "(" + "\"" + path + "\"" + ")") == path
  {
    DeletePathVerb(path);
    DeletePath(path);
  }

  lemma DeletePathVerb(path: string)
    requires '@' !in path
    ensures HttpVerb("@DeleteMapping" + "(" + "\"" + path + "\"" + ")") == "DELETE"
  {
    var rest := "(" + "\"" + path + "\"" + ")";
    assert "@DeleteMapping" + "(" + "\"" + path + "\"" + ")" == "@DeleteMapping" + rest;
    DeleteMappingVerb(rest);
  }

  lemma DeletePath(path: string)
    requires path != [] && forall k :: 0 <= k < |path| ==> !IsQuote(path[k])
    ensures EndpointPath("@DeleteMapping" + "(" + "\"" + path + "\"" + ")") == path
  {
    EndpointPathOf("@DeleteMapping" + "(", path, ")");
  }

  /** The `method=` pattern reads the first quoted literal after `method =`, so
      Spring's enum form `method = RequestMethod.X` followed by a quoted path takes
      the upper-cased path as the verb. */
  lemma RequestMethodEnumThenPath(x: string, path: string)
    requires forall k :: 0 <= k < |x| ==> !IsQuote(x[k]) && x[k] != '{' && x[k] != '@'
    requires path != [] && '@' !in path && forall k :: 0 <= k < |path| ==> !IsQuote(path[k])
    ensures HttpVerb("@RequestMapping(method = RequestMethod." + x + ", value = \"" + path + "\")") == Upper(path)
  {
    var mid := "RequestMethod." + x + ", value = ";
    assert "@RequestMapping(method = RequestMethod." + x + ", value = \"" + path + "\")"
      == "@RequestMapping(" + "method = " + mid + "\"" + path + "\"" + ")";
    assert forall k :: 0 <= k < |mid| ==> !IsQuote(mid[k]) && mid[k] != '{' && mid[k] != '@' by {
      forall k | 0 <= k < |mid|
        ensures !IsQuote(mid[k]) && mid[k] != '{' && mid[k] != '@'
      {
        if 14 <= k < 14 + |x| {
          assert mid[k] == x[k - 14];
        }
      }
    }
    RequestMappingMethodVerb(mid, path, ")");
  }

  /** A `method = "v"` attribute after text without an `m` is found, whatever
      quote-free and brace-free text precedes the literal. */
  lemma MethodValueOf(pre: string, mid: string, v: string, post: string)
    requires 'm' !in pre
    requires forall k :: 0 <= k < |mid| ==> !IsQuote(mid[k]) && mid[k] != '{'
    requires v != [] && forall k :: 0 <= k < |v| ==> !IsQuote(v[k])
    ensures MethodValue(pre + "method = " + mid + "\"" + v + "\"" + post, 0) == Some(v)
  {
    var s := pre + "method = " + mid + "\"" + v + "\"" + post;
    var i := |pre|;
    var q := i + 9 + |mid|;
    MethodLayout(pre, mid, v, post);
    assert forall k :: 0 <= k < i ==> s[k] != 'm';
    NoMethodBefore(s, i);
    MethodValueHere(s, i, q, v);
  }

  /** No `method` can start before the first `m`. */
  lemma NoMethodBefore(s: string, i: nat)
    requires i <= |s| && forall k :: 0 <= k < i ==> s[k] != 'm'
    ensures MethodValue(s, 0) == MethodValue(s, i)
  {
    forall p | 0 <= p < i
      ensures MethodValueAt(s, p).None?
    {
      if p + 6 <= |s| {
        NotAtStart(s[p..], "method", 0);
        assert s[p..][..6] == s[p..p + 6];
      }
    }
    MethodValueSkip(s, 0, i);
  }

  lemma MethodLayout(pre: string, mid: string, v: string, post: string)
    ensures var s := pre + "method = " + mid + "\"" + v + "\"" + post;
      var i, q := |pre|, |pre| + 9 + |mid|;
      |s| == q + 2 + |v| + |post| && (forall k :: 0 <= k < i ==> s[k] == pre[k])
      && OccursAt(s, "method", i) && s[i + 6] == ' ' && s[i + 7] == '=' && s[i + 8] == ' '
      && (forall k :: i + 9 <= k < q ==> s[k] == mid[k - i - 9])
      && s[q] == '"' && s[q + 1..q + 1 + |v|] == v && s[q + 1 + |v|] == '"'
  {
    var s := pre + "method = " + mid + "\"" + v + "\"" + post;
    var i, q := |pre|, |pre| + 9 + |mid|;
    assert s[i..i + 9] == "method = ";
    assert s[i..i + 6] == "method";
    assert s[q + 1..q + 1 + |v|] == v;
  }

  lemma {:induction false} MethodValueSkip(s: string, p: nat, j: nat)
    requires p <= j <= |s|
    requires forall i :: p <= i < j ==> MethodValueAt(s, i).None?
    ensures MethodValue(s, p) == MethodValue(s, j)
    decreases j - p
  {
    if p < j {
      MethodValueSkip(s, p + 1, j);
    }
  }

  lemma {:induction false} QuoteBeforeBraceSkip(s: string, j: nat, q: nat)
    requires j <= q < |s|
    requires forall k :: j <= k < q ==> !IsQuote(s[k]) && s[k] != '{'
    ensures QuoteBeforeBrace(s, j) == QuoteBeforeBrace(s, q)
    decreases q - j
  {
    if j < q {
      QuoteBeforeBraceSkip(s, j + 1, q);
    }
  }

  /** `method = `, quote-free brace-free text, then a quoted literal, read at `i`. */
  lemma MethodValueHere(s: string, i: nat, q: nat, v: string)
    requires i + 9 <= q && q + 1 + |v| < |s|
    requires OccursAt(s, "method", i) && s[i + 6] == ' ' && s[i + 7] == '=' && s[i + 8] == ' '
    requires forall k :: i + 9 <= k < q ==> !IsQuote(s[k]) && s[k] != '{'
    requires v != [] && forall k :: 0 <= k < |v| ==> !IsQuote(v[k])
    requires s[q] == '"' && s[q + 1..q + 1 + |v|] == v && s[q + 1 + |v|] == '"'
    ensures MethodValue(s, i) == Some(v)
  {
    WsRunFrom(s, i + 6, i + 7);
    var n := WsRun(s, i + 8);
    assert i + 8 + n <= q;
    QuoteBeforeBraceSkip(s, i + 8 + n, q);
    QuotedLiteral(s, q, v);
    assert QuoteBeforeBrace(s, q) == Some(v);
    assert MethodValueAt(s, i) == Some(v);
  }

  /** A quote, a non-empty quote-free run and a quote read as that run. */
  lemma QuotedLiteral(s: string, j: nat, v: string)
    requires v != [] && forall k :: 0 <= k < |v| ==> !IsQuote(v[k])
    requires j + 1 + |v| < |s| && IsQuote(s[j]) && s[j + 1..j + 1 + |v|] == v && IsQuote(s[j + 1 + |v|])
    ensures QuotedAt(s, j) == Some(v)
  {
    assert forall k :: j + 1 <= k < j + 1 + |v| ==> s[k] == v[k - j - 1];
    QuoteFreeRunFrom(s, j + 1, j + 1 + |v|);
  }

  /** One captured endpoint: annotation text, return type and method name. */
  datatype EndpointMatch = EndpointMatch(annotation: string, returnType: string, methodName: string)

  datatype Endpoint = Endpoint(httpMethod: string, path: string, methodName: string, returnType: string, annotation: string)

  function EndpointOf(m: EndpointMatch): Endpoint {
    Endpoint(HttpVerb(m.annotation), EndpointPath(m.annotation), m.methodName, m.returnType, Strip(m.annotation))
  }

  /** The endpoint loop: the verb starts at GET and is reassigned by the chain. */
  method ExtractSpringEndpoints(matches: seq<EndpointMatch>) returns (endpoints: seq<Endpoint>)
    ensures |endpoints| == |matches|
    ensures forall i :: 0 <= i < |matches| ==> endpoints[i] == EndpointOf(matches[i])
  {
    endpoints := [];
    for i := 0 to |matches|
      invariant |endpoints| == i
      invariant forall k :: 0 <= k < i ==> endpoints[k] == EndpointOf(matches[k])
    {
      var annotation := matches[i].annotation;
      var path := match FirstQuoted(annotation, 0) case None => [] case Some(v) => v;
      var httpMethod := "GET";
      if Contains(annotation, "@PostMapping") {
        httpMethod := "POST";
      } else if Contains(annotation, "@PutMapping") {
        httpMethod := "PUT";
      } else if Contains(annotation, "@DeleteMapping") {
        httpMethod := "DELETE";
      } else if Contains(annotation, "@PatchMapping") {
        httpMethod := "PATCH";
      } else if Contains(annotation, "@RequestMapping") {
        var methodMatch := MethodValue(annotation, 0);
        httpMethod := if methodMatch.Some? then Upper(methodMatch.value) else "GET";
      }
      endpoints := endpoints + [Endpoint(httpMethod, path, matches[i].methodName, matches[i].returnType, Strip(annotation))];
    }
  }

  // ---------------------------------------------------------------------------
  // First line containing a text
  // ---------------------------------------------------------------------------

  /** The 1-based number of the first line holding `searchText`, or 0. */
  method FindLineNumber(content: string, searchText: string) returns (n: nat)
    ensures var lines := Split(content, '\n');
      n <= |lines| &&
      (n == 0 <==> forall i :: 0 <= i < |lines| ==> !Contains(lines[i], searchText)) &&
      (n > 0 ==> Contains(lines[n - 1], searchText) && forall i :: 0 <= i < n - 1 ==> !Contains(lines[i], searchText))
  {
    var lines := Split(content, '\n');
    for i := 0 to |lines|
      invariant forall k :: 0 <= k < i ==> !Contains(lines[k], searchText)
    {
      if Contains(lines[i], searchText) {
        return i + 1;
      }
    }
    return 0;
  }

  /** So the line number is at most the number of line breaks plus one. */
  lemma LineNumberBound(content: string, n: nat)
    requires n <= |Split(content, '\n')|
    ensures n <= CountChar(content, '\n') + 1
  {
    SplitJoin(content, '\n');
  }

  // ---------------------------------------------------------------------------
  // Spring summary of a source file
  // ---------------------------------------------------------------------------

  /** The eight annotations the summary looks for, in this order. */
  const InfoVocabulary: seq<string> := [
    "@RestController", "@Controller", "@Service", "@Repository",
    "@Component", "@Autowired", "@RequestMapping", "@Configuration"]

  /** The component type an annotation sets, if any. */
  function InfoLabel(a: string): Option<string> {
    if a == "@RestController" || a == "@Controller" then Some("Controller")
    else if a == "@Service" then Some("Service")
    else if a == "@Repository" then Some("Repository")
    else if a == "@Component" then Some("Component")
    else if a == "@Configuration" then Some("Configuration")
    else None
  }

  /** The label of the last labelled annotation in `found`. */
  function LastLabel(found: seq<string>): Option<string>
    decreases |found|
  {
    if found == [] then None
    else
      var l := InfoLabel(found[|found| - 1]);
      if l.Some? then l else LastLabel(found[..|found| - 1])
  }

  datatype SpringInfo = SpringInfo(isSpringComponent: bool, componentType: Option<string>, annotations: seq<string>, endpoints: seq<Endpoint>)

  /** The summary loop: every vocabulary member in the text is recorded, marks the
      file as a component and may reassign the component type. The endpoints are
      those of the captured mapping matches. */
  method ExtractSpringInfo(content: string, matches: seq<EndpointMatch>) returns (info: SpringInfo)
    ensures info.annotations == Present(InfoVocabulary, content)
    ensures info.isSpringComponent <==> info.annotations != []
    ensures info.componentType == LastLabel(info.annotations)
    ensures |info.endpoints| == |matches| && forall i :: 0 <= i < |matches| ==> info.endpoints[i] == EndpointOf(matches[i])
  {
    var annotations: seq<string> := [];
    var isComponent := false;
    var componentType: Option<string> := None;
    for i := 0 to |InfoVocabulary|
      invariant annotations == Present(InfoVocabulary[..i], content)
      invariant isComponent <==> annotations != []
      invariant componentType == LastLabel(annotations)
    {
      assert InfoVocabulary[..i + 1][..i] == InfoVocabulary[..i];
      annotations, isComponent, componentType := RecordInfo(annotations, isComponent, componentType, InfoVocabulary[i], content);
    }
    assert InfoVocabulary[..|InfoVocabulary|] == InfoVocabulary;
    var endpoints := ExtractSpringEndpoints(matches);
    info := SpringInfo(isComponent, componentType, annotations, endpoints);
  }

  /** One step of the summary loop: a vocabulary member in the text is recorded,
      marks the file as a component and may reassign the component type. */
  method RecordInfo(annotations: seq<string>, isComponent: bool, componentType: Option<string>, annotation: string, content: string)
    returns (found: seq<string>, component: bool, kind: Option<string>)
    requires (isComponent <==> annotations != []) && componentType == LastLabel(annotations)
    ensures found == annotations + (if Contains(content, annotation) then [annotation] else [])
    ensures (component <==> found != []) && kind == LastLabel(found)
  {
    found, component, kind := annotations, isComponent, componentType;
    if Contains(content, annotation) {
      assert (annotations + [annotation])[..|annotations|] == annotations;
      found := annotations + [annotation];
      component := true;
      if annotation == "@RestController" || annotation == "@Controller" {
        kind := Some("Controller");
      } else if annotation == "@Service" {
        kind := Some("Service");
      } else if annotation == "@Repository" {
        kind := Some("Repository");
      } else if annotation == "@Component" {
        kind := Some("Component");
      } else if annotation == "@Configuration" {
        kind := Some("Configuration");
      }
    }
  }

  /** The last labelled annotation is the one that counts: `@Configuration`, last in
      the vocabulary, decides the type whenever present. */
  lemma ConfigurationWins(content: string)
    requires Contains(content, "@Configuration")
    ensures LastLabel(Present(InfoVocabulary, content)) == Some("Configuration")
  {
    var v := InfoVocabulary;
    assert v[..|v| - 1] + [v[|v| - 1]] == v;
  }

  /** A file whose only vocabulary annotations are `@Autowired` or `@RequestMapping`
      is a component without a type. */
  lemma {:induction false} UnlabelledOnly(found: seq<string>)
    requires forall i :: 0 <= i < |found| ==> found[i] == "@Autowired" || found[i] == "@RequestMapping"
    ensures LastLabel(found) == None
    decreases |found|
  {
    if found != [] {
      UnlabelledOnly(found[..|found| - 1]);
    }
  }

  /** No type is found exactly when no found annotation carries a label. */
  lemma {:induction false} LastLabelNone(found: seq<string>)
    ensures LastLabel(found).None? <==> forall i :: 0 <= i < |found| ==> InfoLabel(found[i]).None?
    decreases |found|
  {
    if found != [] {
      var init := found[..|found| - 1];
      LastLabelNone(init);
      assert forall i :: 0 <= i < |init| ==> init[i] == found[i];
    }
  }

  /** A type that is found is the label of the last labelled annotation. */
  lemma LastLabelLast(found: seq<string>)
    ensures LastLabel(found).Some? ==> exists i :: (0 <= i < |found| && InfoLabel(found[i]) == LastLabel(found)
      && forall j :: i < j < |found| ==> InfoLabel(found[j]).None?)
  {
    if LastLabel(found).Some? {
      var i := LastLabelIndex(found);
    }
  }

  /** The index of the last labelled annotation. */
  lemma {:induction false} LastLabelIndex(found: seq<string>) returns (i: nat)
    requires LastLabel(found).Some?
    ensures i < |found| && InfoLabel(found[i]) == LastLabel(found)
    ensures forall j :: i < j < |found| ==> InfoLabel(found[j]).None?
    decreases |found|
  {
    var init := found[..|found| - 1];
    if InfoLabel(found[|found| - 1]).Some? {
      i := |found| - 1;
    } else {
      i := LastLabelIndex(init);
      assert forall j :: i < j < |found| - 1 ==> found[j] == init[j];
    }
  }

  // ---------------------------------------------------------------------------
  // Parameters of the method summary
  // ---------------------------------------------------------------------------

  /** The method summary strips the captured parameter text first, then parses it
      like the code analyser; the result is the same. */
  function MethodInfoParams(raw: string): (r: seq<CodeAnalyzer.Param>)
    ensures r == CodeAnalyzer.ParamList(raw)
  {
    var params := Strip(raw);
    StripSameParams(raw);
    if params == [] then [] else CodeAnalyzer.ParamsOf(Split(params, ','))
  }

  lemma StripSameParams(raw: string)
    ensures Strip(raw) != [] ==> CodeAnalyzer.ParamsOf(Split(Strip(raw), ',')) == CodeAnalyzer.ParamsOf(Split(raw, ','))
    ensures Strip(raw) == [] ==> CodeAnalyzer.ParamList(raw) == []
  {
    var t := Strip(raw);
    var a := StripOffset(raw);
    StripPads(raw);
    var w1, w2 := raw[..a], raw[a + |t|..];
    assert raw == w1 + t + w2;
    PaddedPieces(w1, t, w2);
    SameStripSameParams(Split(t, ','), Split(raw, ','));
    if t == [] {
      CodeAnalyzer.ParamListGuard(raw);
    }
  }

  /** Whitespace around a comma list only pads its first and last pieces. */
  lemma PaddedPieces(w1: string, t: string, w2: string)
    requires AllSpace(w1) && AllSpace(w2)
    ensures var p, r := Split(t, ','), Split(w1 + t + w2, ',');
      |r| == |p| && forall i :: 0 <= i < |p| ==> Strip(r[i]) == Strip(p[i])
  {
    SpaceNoComma(w1);
    SpaceNoComma(w2);
    var p := Split(t, ',');
    SplitPrefixNoSep(w1, t, ',');
    var q := Split(w1 + t, ',');
    assert q == [w1 + p[0]] + p[1..];
    SplitSuffixNoSep(w1 + t, w2, ',');
    var r := Split(w1 + t + w2, ',');
    assert r == q[..|q| - 1] + [q[|q| - 1] + w2];
    forall i | 0 <= i < |p|
      ensures Strip(r[i]) == Strip(p[i])
    {
      PaddedPiece(w1, p, w2, q, r, i);
    }
  }

  lemma PaddedPiece(w1: string, p: seq<string>, w2: string, q: seq<string>, r: seq<string>, i: nat)
    requires AllSpace(w1) && AllSpace(w2) && |p| >= 1 && i < |p|
    requires q == [w1 + p[0]] + p[1..] && r == q[..|q| - 1] + [q[|q| - 1] + w2]
    ensures |r| == |p| && Strip(r[i]) == Strip(p[i])
  {
    if i == 0 && i == |p| - 1 {
      assert r[i] == w1 + p[0] + w2;
      StripSpaceSuffix(w1 + p[0], w2);
      StripSpacePrefix(w1, p[0]);
    } else if i == 0 {
      assert r[i] == w1 + p[0];
      StripSpacePrefix(w1, p[0]);
    } else if i == |p| - 1 {
      assert r[i] == p[i] + w2;
      StripSpaceSuffix(p[i], w2);
    } else {
      assert r[i] == p[i];
    }
  }

  lemma {:induction false} SpaceNoComma(w: string)
    requires AllSpace(w)
    ensures ',' !in w
  {
  }

  /** Pieces that strip alike parse alike. */
  lemma {:induction false} SameStripSameParams(p: seq<string>, r: seq<string>)
    requires |p| == |r| && forall i :: 0 <= i < |p| ==> Strip(r[i]) == Strip(p[i])
    ensures CodeAnalyzer.ParamsOf(p) == CodeAnalyzer.ParamsOf(r)
    decreases |p|
  {
    if p != [] {
      var p', r' := p[..|p| - 1], r[..|r| - 1];
      forall i | 0 <= i < |p'|
        ensures Strip(r'[i]) == Strip(p'[i])
      {
        assert p'[i] == p[i] && r'[i] == r[i];
      }
      SameStripSameParams(p', r');
      ParamOfSameStrip(p[|p| - 1], r[|r| - 1]);
      CodeAnalyzer.ParamsOfLast(p);
      CodeAnalyzer.ParamsOfLast(r);
    }
  }

  lemma ParamOfSameStrip(x: string, y: string)
    requires Strip(x) == Strip(y)
    ensures CodeAnalyzer.ParamOf(x) == CodeAnalyzer.ParamOf(y)
  {
  }
}
