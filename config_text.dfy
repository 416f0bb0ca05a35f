/** The flat key/value line rule shared by the `.properties` and YAML readers:
    a line defines a key when it holds the separator and, once stripped, does not
    start with '#'; key and value are the stripped text on either side of the
    first separator, and a later line with the same key wins. Nested YAML is not
    rebuilt: every line stands alone. */
module ConfigText {
  import opened Text

  /** The line defines a key under separator `sep`. */
  predicate IsEntry(line: string, sep: char) {
    sep in line && !StartsWith(Strip(line), "#")
  }

  /** Stripped text before the first `sep` (`line.split(sep, 1)[0].strip()`). */
  function KeyOf(line: string, sep: char): string
    requires sep in line
  {
    Strip(line[..IndexOf(line, sep)])
  }

  /** Stripped text after the first `sep` (`line.split(sep, 1)[1].strip()`). */
  function ValueOf(line: string, sep: char): string
    requires sep in line
  {
    Strip(line[IndexOf(line, sep) + 1..])
  }

  /** The line is cut at its first separator: key and value are the stripped text
      on either side of it, whatever later separators the value holds. */
  lemma KeyValueAtFirst(before: string, after: string, sep: char)
    requires sep !in before
    ensures sep in before + [sep] + after
    ensures KeyOf(before + [sep] + after, sep) == Strip(before)
    ensures ValueOf(before + [sep] + after, sep) == Strip(after)
  {
    IndexOfAfter(before, after, sep);
    var line := before + [sep] + after;
    assert line[..|before|] == before;
    assert line[|before| + 1..] == after;
  }

  /** The dictionary after feeding `lines` to the splitter in order. */
  function Entries(lines: seq<string>, sep: char): (m: map<string, string>)
    ensures forall k :: k in m ==> (k == [] || Unpadded(k)) && (m[k] == [] || Unpadded(m[k]))
    decreases |lines|
  {
    if lines == [] then map[]
    else
      var m := Entries(lines[..|lines| - 1], sep);
      var l := lines[|lines| - 1];
      if IsEntry(l, sep) then
        StripEnds(l[..IndexOf(l, sep)]);
        StripEnds(l[IndexOf(l, sep) + 1..]);
        m[KeyOf(l, sep) := ValueOf(l, sep)]
      else m
  }

  /** Number of lines that define a key (`len([l for l in lines if sep in l and not l.strip().startswith('#')])`). */
  function KeyCount(lines: seq<string>, sep: char): (n: nat)
    ensures n <= |lines|
    decreases |lines|
  {
    if lines == [] then 0
    else KeyCount(lines[..|lines| - 1], sep) + (if IsEntry(lines[|lines| - 1], sep) then 1 else 0)
  }

  /** The splitter loop: `content.split('\n')`, then one dictionary write per key line. */
  method ParseFlat(content: string, sep: char) returns (config: map<string, string>)
    ensures config == Entries(Split(content, '\n'), sep)
  {
    var lines := Split(content, '\n');
    config := map[];
    for i := 0 to |lines|
      invariant config == Entries(lines[..i], sep)
    {
      var line := lines[i];
      EntriesStep(lines, i, sep);
      if sep in line && !StartsWith(Strip(line), "#") {
        var k := IndexOf(line, sep);
        config := config[Strip(line[..k]) := Strip(line[k + 1..])];
      }
    }
    assert lines[..|lines|] == lines;
  }

  lemma EntriesStep(lines: seq<string>, i: nat, sep: char)
    requires i < |lines|
    ensures Entries(lines[..i + 1], sep) ==
      if IsEntry(lines[i], sep) then Entries(lines[..i], sep)[KeyOf(lines[i], sep) := ValueOf(lines[i], sep)]
      else Entries(lines[..i], sep)
  {
    assert lines[..i + 1][..i] == lines[..i];
  }

  /** A key is present exactly when some key line names it. */
  lemma {:induction false} EntriesKeys(lines: seq<string>, sep: char, k: string)
    ensures k in Entries(lines, sep) <==>
      exists i :: 0 <= i < |lines| && IsEntry(lines[i], sep) && KeyOf(lines[i], sep) == k
    decreases |lines|
  {
    if lines != [] {
      var init := lines[..|lines| - 1];
      EntriesKeys(init, sep, k);
      if exists i :: 0 <= i < |init| && IsEntry(init[i], sep) && KeyOf(init[i], sep) == k {
        var i :| 0 <= i < |init| && IsEntry(init[i], sep) && KeyOf(init[i], sep) == k;
        assert lines[i] == init[i];
      }
      if exists i :: 0 <= i < |lines| && IsEntry(lines[i], sep) && KeyOf(lines[i], sep) == k {
        var i :| 0 <= i < |lines| && IsEntry(lines[i], sep) && KeyOf(lines[i], sep) == k;
        if i < |init| {
          assert init[i] == lines[i];
        }
      }
    }
  }

  /** Last writer wins: a key line that no later key line overrides gives its key's value. */
  lemma {:induction false} EntriesLastWins(lines: seq<string>, sep: char, i: nat)
    requires i < |lines| && IsEntry(lines[i], sep)
    requires forall j :: i < j < |lines| && IsEntry(lines[j], sep) ==> KeyOf(lines[j], sep) != KeyOf(lines[i], sep)
    ensures KeyOf(lines[i], sep) in Entries(lines, sep)
    ensures Entries(lines, sep)[KeyOf(lines[i], sep)] == ValueOf(lines[i], sep)
    decreases |lines|
  {
    if i < |lines| - 1 {
      var init := lines[..|lines| - 1];
      assert init[i] == lines[i];
      forall j | i < j < |init| && IsEntry(init[j], sep)
        ensures KeyOf(init[j], sep) != KeyOf(init[i], sep)
      {
        assert init[j] == lines[j];
      }
      EntriesLastWins(init, sep, i);
    }
  }

  /** There are no more distinct keys than key lines. */
  lemma {:induction false} EntriesAtMostKeyCount(lines: seq<string>, sep: char)
    ensures |Entries(lines, sep)| <= KeyCount(lines, sep)
    decreases |lines|
  {
    if lines != [] {
      EntriesAtMostKeyCount(lines[..|lines| - 1], sep);
    }
  }

  /** Nesting is flattened: in YAML text `server:` followed by an indented
      `port: 8080`, `server` maps to the empty string and `port` to `8080`. */
  lemma NestedYamlFlattens()
    ensures Entries(Split("server:\n  port: 8080", '\n'), ':') == map["server" := "", "port" := "8080"]
  {
    TwoLines();
    FirstLine();
    SecondLine();
    EntriesOfTwo("server:", "  port: 8080", ':');
  }

  lemma TwoLines()
    ensures Split("server:\n  port: 8080", '\n') == ["server:", "  port: 8080"]
  {
    var a, b := "server:", "  port: 8080";
    assert "server:\n  port: 8080" == a + "\n" + b;
    SplitTwo(a, b, '\n');
  }

  lemma EntriesOfTwo(l1: string, l2: string, sep: char)
    requires IsEntry(l1, sep) && IsEntry(l2, sep)
    ensures Entries([l1, l2], sep) == map[KeyOf(l1, sep) := ValueOf(l1, sep)][KeyOf(l2, sep) := ValueOf(l2, sep)]
  {
    assert [l1, l2][..1] == [l1];
    assert [l1][..0] == [];
    assert Entries([l1], sep) == map[][KeyOf(l1, sep) := ValueOf(l1, sep)];
  }

  lemma FirstLine()
    ensures IsEntry("server:", ':') && KeyOf("server:", ':') == "server" && ValueOf("server:", ':') == ""
  {
    assert "server:" == "" + "server" + [':'] + "" + "";
    PaddedEntry("", "server", "", "", ':');
  }

  lemma SecondLine()
    ensures IsEntry("  port: 8080", ':') && KeyOf("  port: 8080", ':') == "port" && ValueOf("  port: 8080", ':') == "8080"
  {
    assert "  port: 8080" == "  " + "port" + [':'] + " " + "8080";
    PaddedEntry("  ", "port", " ", "8080", ':');
  }

  /** A line made of blanks, an unpadded key, the separator, blanks and an
      unpadded value defines that key with that value. */
  lemma PaddedEntry(w1: string, k: string, w2: string, v: string, sep: char)
    requires AllSpace(w1) && AllSpace(w2) && sep !in w1 && sep !in k
    requires Unpadded(k) && k[0] != '#' && (v == [] || Unpadded(v))
    ensures IsEntry(w1 + k + [sep] + w2 + v, sep)
    ensures KeyOf(w1 + k + [sep] + w2 + v, sep) == k && ValueOf(w1 + k + [sep] + w2 + v, sep) == v
  {
    assert w1 + k + [sep] + w2 + v == w1 + k + [sep] + (w2 + v);
    PaddedEntryIsEntry(w1, k, w2 + v, sep);
    PaddedEntrySplit(w1, k, w2, v, sep);
  }

  lemma PaddedEntryIsEntry(w1: string, k: string, after: string, sep: char)
    requires AllSpace(w1) && k != [] && !IsSpace(k[0]) && k[0] != '#'
    ensures IsEntry(w1 + k + [sep] + after, sep)
  {
    var line := w1 + k + [sep] + after;
    var rest := k + [sep] + after;
    assert line == w1 + rest;
    assert rest[|k|] == sep;
    StripSpacePrefix(w1, rest);
    StripFirst(rest);
    StartsWithChar(Strip(line), '#');
  }

  lemma PaddedEntrySplit(w1: string, k: string, w2: string, v: string, sep: char)
    requires AllSpace(w1) && AllSpace(w2) && sep !in w1 && sep !in k
    requires Unpadded(k) && (v == [] || Unpadded(v))
    ensures sep in w1 + k + [sep] + w2 + v
    ensures KeyOf(w1 + k + [sep] + w2 + v, sep) == k && ValueOf(w1 + k + [sep] + w2 + v, sep) == v
  {
    var line := w1 + k + [sep] + w2 + v;
    assert line == (w1 + k) + [sep] + (w2 + v);
    KeyValueAtFirst(w1 + k, w2 + v, sep);
    StripSpacePrefix(w1, k);
    StripUnpadded(k);
    StripSpacePrefix(w2, v);
    StripUnpadded(v);
  }
}
