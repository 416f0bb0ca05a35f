/** Python `str` operations that the extractors use, over `string` (a `seq<char>`).
    Whitespace is Python's `str.isspace()` on the ASCII range; word characters are
    the ASCII part of the regex class `\w`; case mapping is ASCII only. */
module Text {

  /** Python's `None` or a value. */
  datatype Option<T> = None | Some(value: T)

  /** `c.isspace()` for the ASCII range: space, \t, \n, \v, \f, \r and the four
      information separators \x1c-\x1f. */
  predicate IsSpace(c: char) {
    c == ' ' || c == '\t' || c == '\n' || c == '\r' || c == '\U{B}' || c == '\U{C}'
    || ('\U{1C}' <= c <= '\U{1F}')
  }

  /** A character of the regex class `\w` (ASCII part). */
  predicate IsWordChar(c: char) {
    ('a' <= c <= 'z') || ('A' <= c <= 'Z') || ('0' <= c <= '9') || c == '_'
  }

  predicate AllSpace(s: string) {
    forall i :: 0 <= i < |s| ==> IsSpace(s[i])
  }

  predicate NoSpace(s: string) {
    forall i :: 0 <= i < |s| ==> !IsSpace(s[i])
  }

  /** `s.startswith(p)`. */
  predicate StartsWith(s: string, p: string) {
    |p| <= |s| && s[..|p|] == p
  }

  /** Starting with a one-character text is a test of the first character. */
  lemma StartsWithChar(s: string, c: char)
    ensures StartsWith(s, [c]) <==> s != [] && s[0] == c
  {
    if s != [] && s[0] == c {
      assert s[..1] == [c];
    }
  }

  /** `p in s` (substring containment). */
  predicate Contains(s: string, p: string)
    decreases |s|
  {
    StartsWith(s, p) || (s != [] && Contains(s[1..], p))
  }

  /** `p` occurs in `s` at index `i`. */
  predicate OccursAt(s: string, p: string, i: nat) {
    i + |p| <= |s| && s[i..i + |p|] == p
  }

  /** Containment means an occurrence at some index. */
  lemma {:induction false} ContainsAt(s: string, p: string)
    ensures Contains(s, p) <==> exists i: nat :: OccursAt(s, p, i)
    decreases |s|
  {
    if StartsWith(s, p) {
      assert OccursAt(s, p, 0);
    } else if s == [] {
    } else {
      ContainsAt(s[1..], p);
      if Contains(s[1..], p) {
        var i: nat :| OccursAt(s[1..], p, i);
        assert s[i + 1..i + 1 + |p|] == s[1..][i..i + |p|];
        assert OccursAt(s, p, i + 1);
      }
      if exists i: nat :: OccursAt(s, p, i) {
        var i: nat :| OccursAt(s, p, i);
        assert i != 0;
        assert s[1..][i - 1..i - 1 + |p|] == s[i..i + |p|];
        assert OccursAt(s[1..], p, i - 1);
      }
    }
  }

  /** A text that holds `p` at index `i` contains `p`. */
  lemma ContainsFromIndex(s: string, p: string, i: nat)
    requires OccursAt(s, p, i)
    ensures Contains(s, p)
  {
    ContainsAt(s, p);
  }

  /** `s.lstrip()`: the suffix of `s` left after its leading whitespace. */
  function LStrip(s: string): string {
    if s != [] && IsSpace(s[0]) then LStrip(s[1..]) else s
  }

  /** `lstrip` removes a whitespace prefix and stops at the first other character. */
  lemma {:induction false} LStripSpec(s: string)
    ensures var r := LStrip(s);
      |r| <= |s| && r == s[|s| - |r|..] && AllSpace(s[..|s| - |r|]) && (r == [] || !IsSpace(r[0]))
    decreases |s|
  {
    if s != [] && IsSpace(s[0]) {
      LStripSpec(s[1..]);
      var r := LStrip(s);
      assert s[1..][|s| - 1 - |r|..] == s[|s| - |r|..];
      assert s[..|s| - |r|] == [s[0]] + s[1..][..|s| - 1 - |r|];
    } else {
      assert s[..0] == [];
    }
  }

  /** `s.rstrip()`: the prefix of `s` left after its trailing whitespace. */
  function RStrip(s: string): string {
    if s != [] && IsSpace(s[|s| - 1]) then RStrip(s[..|s| - 1]) else s
  }

  /** `rstrip` removes a whitespace suffix and stops at the last other character. */
  lemma {:induction false} RStripSpec(s: string)
    ensures var r := RStrip(s);
      |r| <= |s| && r == s[..|r|] && AllSpace(s[|r|..]) && (r == [] || !IsSpace(r[|r| - 1]))
    decreases |s|
  {
    if s != [] && IsSpace(s[|s| - 1]) {
      RStripSpec(s[..|s| - 1]);
      var r := RStrip(s);
      assert s[..|s| - 1][..|r|] == s[..|r|];
      assert s[|r|..] == s[..|s| - 1][|r|..] + [s[|s| - 1]];
    } else {
      assert s[|s|..] == [];
    }
  }

  /** `s.strip()`. */
  function Strip(s: string): string {
    RStrip(LStrip(s))
  }

  /** What `strip` means: `s` is whitespace, then the result, then whitespace, and the
      result neither begins nor ends with whitespace. */
  lemma StripSpec(s: string)
    ensures exists a :: 0 <= a <= a + |Strip(s)| <= |s| && s[a..a + |Strip(s)|] == Strip(s)
              && AllSpace(s[..a]) && AllSpace(s[a + |Strip(s)|..])
    ensures Strip(s) == [] || (!IsSpace(Strip(s)[0]) && !IsSpace(Strip(s)[|Strip(s)| - 1]))
  {
    var l := LStrip(s);
    var a := |s| - |l|;
    var r := RStrip(l);
    LStripSpec(s);
    RStripSpec(l);
    assert s[a..a + |r|] == l[..|r|];
    assert s[a + |r|..] == l[|r|..];
    if r != [] {
      assert l[0] == r[0];
    }
  }

  /** The result of `strip` neither begins nor ends with whitespace. */
  lemma StripEnds(s: string)
    ensures Strip(s) == [] || (!IsSpace(Strip(s)[0]) && !IsSpace(Strip(s)[|Strip(s)| - 1]))
  {
    StripSpec(s);
  }

  /** `strip` keeps a piece of its argument: the result, as a sequence of characters
      from `s`, at offset `StripOffset(s)`. */
  function StripOffset(s: string): (a: nat)
    ensures a + |Strip(s)| <= |s| && s[a..a + |Strip(s)|] == Strip(s)
  {
    LStripSpec(s);
    RStripSpec(LStrip(s));
    |s| - |LStrip(s)|
  }

  /** A text that does not begin with whitespace keeps its first character. */
  lemma StripFirst(s: string)
    requires s != [] && !IsSpace(s[0])
    ensures Strip(s) != [] && Strip(s)[0] == s[0]
  {
    assert LStrip(s) == s;
    RStripSpec(s);
  }

  /** What `strip` removes on either side of `StripOffset` is whitespace. */
  lemma StripPads(s: string)
    ensures AllSpace(s[..StripOffset(s)]) && AllSpace(s[StripOffset(s) + |Strip(s)|..])
  {
    var l := LStrip(s);
    LStripSpec(s);
    RStripSpec(l);
    var a := StripOffset(s);
    assert s[a + |Strip(s)|..] == l[|Strip(s)|..];
  }

  /** Only a whitespace text strips to nothing. */
  lemma StripEmpty(s: string)
    requires Strip(s) == []
    ensures AllSpace(s)
  {
    var a := StripOffset(s);
    StripPads(s);
    assert s == s[..a] + s[a..];
  }

  /** `strip` ignores extra whitespace in front. */
  lemma {:induction false} StripSpacePrefix(w: string, s: string)
    requires AllSpace(w)
    ensures Strip(w + s) == Strip(s)
  {
    if w != [] {
      assert (w + s)[1..] == w[1..] + s;
      StripSpacePrefix(w[1..], s);
    } else {
      assert w + s == s;
    }
  }

  lemma {:induction false} RStripSpaceSuffix(s: string, w: string)
    requires AllSpace(w)
    ensures RStrip(s + w) == RStrip(s)
    decreases |w|
  {
    if w != [] {
      assert (s + w)[..|s + w| - 1] == s + w[..|w| - 1];
      RStripSpaceSuffix(s, w[..|w| - 1]);
    } else {
      assert s + w == s;
    }
  }

  lemma {:induction false} LStripSpaceSuffix(s: string, w: string)
    requires AllSpace(w)
    ensures LStrip(s + w) == if LStrip(s) == [] then [] else LStrip(s) + w
    decreases |s|
  {
    if s == [] {
      assert s + w == w;
      LStripAllSpace(w);
    } else if IsSpace(s[0]) {
      assert (s + w)[1..] == s[1..] + w;
      LStripSpaceSuffix(s[1..], w);
    }
  }

  lemma {:induction false} LStripAllSpace(w: string)
    requires AllSpace(w)
    ensures LStrip(w) == []
    decreases |w|
  {
    if w != [] {
      LStripAllSpace(w[1..]);
    }
  }

  /** `strip` ignores extra whitespace behind. */
  lemma StripSpaceSuffix(s: string, w: string)
    requires AllSpace(w)
    ensures Strip(s + w) == Strip(s)
  {
    LStripSpaceSuffix(s, w);
    RStripSpaceSuffix(LStrip(s), w);
  }

  /** `sep.join(parts)`. */
  function Join(sep: string, parts: seq<string>): string
    decreases |parts|
  {
    if parts == [] then []
    else if |parts| == 1 then parts[0]
    else parts[0] + sep + Join(sep, parts[1..])
  }

  /** Number of occurrences of the character `c` in `s`. */
  function CountChar(s: string, c: char): nat
    decreases |s|
  {
    if s == [] then 0 else (if s[0] == c then 1 else 0) + CountChar(s[1..], c)
  }

  lemma {:induction false} CountCharAppend(s: string, t: string, c: char)
    ensures CountChar(s + t, c) == CountChar(s, c) + CountChar(t, c)
    decreases |s|
  {
    if s == [] {
      assert s + t == t;
    } else {
      assert (s + t)[1..] == s[1..] + t;
      CountCharAppend(s[1..], t, c);
    }
  }

  /** `s.split(c)` for a one-character separator: the pieces between the occurrences of `c`. */
  function Split(s: string, c: char): (r: seq<string>)
    ensures |r| >= 1
    ensures forall i :: 0 <= i < |r| ==> c !in r[i]
    decreases |s|
  {
    if s == [] then [[]]
    else
      var rest := Split(s[1..], c);
      if s[0] == c then [[]] + rest else [[s[0]] + rest[0]] + rest[1..]
  }

  /** The pieces of `split` joined back with the separator give the text again, and
      there is one more piece than separators. */
  lemma SplitJoin(s: string, c: char)
    ensures Join([c], Split(s, c)) == s
    ensures |Split(s, c)| == CountChar(s, c) + 1
  {
    SplitRejoins(s, c);
    SplitCount(s, c);
  }

  lemma {:induction false} SplitRejoins(s: string, c: char)
    ensures Join([c], Split(s, c)) == s
    decreases |s|
  {
    if s != [] {
      var rest := Split(s[1..], c);
      SplitRejoins(s[1..], c);
      assert s == [s[0]] + s[1..];
      if s[0] == c {
        assert Split(s, c) == [[]] + rest;
      } else if |rest| == 1 {
        assert Split(s, c) == [[s[0]] + rest[0]];
      } else {
        var r := Split(s, c);
        assert r == [[s[0]] + rest[0]] + rest[1..];
        assert Join([c], rest) == rest[0] + [c] + Join([c], rest[1..]);
        assert Join([c], r) == [s[0]] + rest[0] + [c] + Join([c], rest[1..]);
      }
    }
  }

  lemma {:induction false} SplitCount(s: string, c: char)
    ensures |Split(s, c)| == CountChar(s, c) + 1
    decreases |s|
  {
    if s != [] {
      SplitCount(s[1..], c);
    }
  }

  /** A text without the separator is one piece. */
  lemma SplitNoSep(s: string, c: char)
    requires c !in s
    ensures Split(s, c) == [s]
  {
    SplitJoin(s, c);
    CountCharZero(s, c);
  }

  lemma {:induction false} CountCharZero(s: string, c: char)
    requires c !in s
    ensures CountChar(s, c) == 0
    decreases |s|
  {
    if s != [] {
      CountCharZero(s[1..], c);
    }
  }

  /** Text in front that holds no separator only widens the first piece. */
  lemma {:induction false} SplitPrefixNoSep(w: string, s: string, c: char)
    requires c !in w
    ensures Split(w + s, c) == [w + Split(s, c)[0]] + Split(s, c)[1..]
    decreases |w|
  {
    if w == [] {
      assert w + s == s;
      var p := Split(s, c);
      assert w + p[0] == p[0] && [p[0]] + p[1..] == p;
    } else {
      assert (w + s)[1..] == w[1..] + s;
      assert (w + s)[0] == w[0] != c;
      SplitPrefixNoSep(w[1..], s, c);
      var p := Split(s, c);
      var rest := Split(w[1..] + s, c);
      assert Split(w + s, c) == [[w[0]] + rest[0]] + rest[1..];
      assert rest[0] == w[1..] + p[0] && rest[1..] == p[1..];
      assert [w[0]] + (w[1..] + p[0]) == w + p[0];
    }
  }

  /** Text behind that holds no separator only widens the last piece. */
  lemma {:induction false} SplitSuffixNoSep(s: string, w: string, c: char)
    requires c !in w
    ensures var p := Split(s, c);
      Split(s + w, c) == p[..|p| - 1] + [p[|p| - 1] + w]
    decreases |s|
  {
    if s == [] {
      assert s + w == w;
      SplitNoSep(w, c);
    } else {
      assert (s + w)[1..] == s[1..] + w;
      assert (s + w)[0] == s[0];
      SplitSuffixNoSep(s[1..], w, c);
      var q := Split(s[1..], c);
      var r := Split(s[1..] + w, c);
      if s[0] == c {
        WidenAfterEmpty(q, r, w);
      } else {
        WidenAfterChar(s[0], q, r, w);
      }
    }
  }

  /** A new empty first piece leaves the widened last piece last. */
  lemma WidenAfterEmpty(q: seq<string>, r: seq<string>, w: string)
    requires |q| >= 1 && r == q[..|q| - 1] + [q[|q| - 1] + w]
    ensures var p := [[]] + q;
      [[]] + r == p[..|p| - 1] + [p[|p| - 1] + w]
  {
    var p := [[]] + q;
    assert p[..|p| - 1] == [[]] + q[..|q| - 1];
  }

  /** A character put in front of the first piece leaves the widened last piece
      last. */
  lemma WidenAfterChar(x: char, q: seq<string>, r: seq<string>, w: string)
    requires |q| >= 1 && r == q[..|q| - 1] + [q[|q| - 1] + w]
    ensures var p := [[x] + q[0]] + q[1..];
      [[x] + r[0]] + r[1..] == p[..|p| - 1] + [p[|p| - 1] + w]
  {
    if |q| == 1 {
      assert r == [q[0] + w];
      assert [x] + (q[0] + w) == ([x] + q[0]) + w;
    } else {
      assert r[0] == q[0];
      assert r[1..] == q[1..|q| - 1] + [q[|q| - 1] + w];
    }
  }

  /** Splitting at the first separator. */
  lemma SplitAtFirst(a: string, b: string, c: char)
    requires c !in a
    ensures Split(a + [c] + b, c) == [a] + Split(b, c)
  {
    SplitPrefixNoSep(a, [c] + b, c);
    assert a + [c] + b == a + ([c] + b);
    assert ([c] + b)[1..] == b;
    assert a + [] == a;
  }

  /** Two pieces around a single separator. */
  lemma SplitTwo(a: string, b: string, c: char)
    requires c !in a && c !in b
    ensures Split(a + [c] + b, c) == [a, b]
  {
    SplitAtFirst(a, b, c);
    SplitNoSep(b, c);
  }

  /** The longest prefix of `s` without whitespace. */
  function Word(s: string): (r: string)
    ensures |r| <= |s| && r == s[..|r|]
    ensures NoSpace(r)
    ensures |r| < |s| ==> IsSpace(s[|r|])
    decreases |s|
  {
    if s == [] || IsSpace(s[0]) then [] else [s[0]] + Word(s[1..])
  }

  /** `s.split()` with no argument: the maximal runs of non-whitespace, in order. */
  function SplitWs(s: string): (r: seq<string>)
    ensures forall i :: 0 <= i < |r| ==> r[i] != [] && NoSpace(r[i])
    decreases |s|
  {
    if s == [] then []
    else if IsSpace(s[0]) then SplitWs(s[1..])
    else
      var w := Word(s);
      [w] + SplitWs(s[|w|..])
  }

  lemma {:induction false} WordOfJoin(t: string, rest: string)
    requires t != [] && NoSpace(t)
    requires rest == [] || IsSpace(rest[0])
    ensures Word(t + rest) == t
    decreases |t|
  {
    var s := t + rest;
    assert s[0] == t[0];
    if |t| == 1 {
      assert s[1..] == rest;
    } else {
      assert s[1..] == t[1..] + rest;
      WordOfJoin(t[1..], rest);
    }
  }

  /** Round trip: splitting a single-space join of tokens without whitespace gives
      the tokens back. */
  lemma {:induction false} SplitWsJoin(toks: seq<string>)
    requires forall i :: 0 <= i < |toks| ==> toks[i] != [] && NoSpace(toks[i])
    ensures SplitWs(Join(" ", toks)) == toks
    decreases |toks|
  {
    if toks != [] {
      var t := toks[0];
      assert toks == [t] + toks[1..];
      if |toks| == 1 {
        assert t + [] == t;
        SplitWsWord(t, []);
      } else {
        var tail := Join(" ", toks[1..]);
        assert Join(" ", toks) == t + (" " + tail);
        SplitWsWord(t, " " + tail);
        assert (" " + tail)[1..] == tail;
        SplitWsJoin(toks[1..]);
      }
    }
  }

  /** A token followed by whitespace or nothing is the first piece of `split()`. */
  lemma SplitWsWord(t: string, rest: string)
    requires t != [] && NoSpace(t)
    requires rest == [] || IsSpace(rest[0])
    ensures SplitWs(t + rest) == [t] + SplitWs(rest)
  {
    WordOfJoin(t, rest);
    assert (t + rest)[|t|..] == rest;
  }

  /** A non-empty text that neither begins nor ends with whitespace. */
  predicate Unpadded(s: string) {
    s != [] && !IsSpace(s[0]) && !IsSpace(s[|s| - 1])
  }

  /** A single-space join of non-empty, unpadded tokens neither begins nor ends with
      whitespace. */
  lemma {:induction false} JoinUnpadded(parts: seq<string>)
    requires forall i :: 0 <= i < |parts| ==> Unpadded(parts[i])
    ensures var j := Join(" ", parts);
      (parts == [] <==> j == []) && (j != [] ==> Unpadded(j))
    decreases |parts|
  {
    if |parts| > 1 {
      JoinUnpadded(parts[1..]);
      var j := Join(" ", parts);
      var tail := Join(" ", parts[1..]);
      assert j == parts[0] + " " + tail;
      assert j[0] == parts[0][0];
      assert j[|j| - 1] == tail[|tail| - 1];
    }
  }

  /** Index of the first `c` in `s`. */
  function IndexOf(s: string, c: char): (i: nat)
    requires c in s
    ensures i < |s| && s[i] == c && c !in s[..i]
    decreases |s|
  {
    if s[0] == c then 0 else 1 + IndexOf(s[1..], c)
  }

  /** The first `c` sits right after a prefix free of `c`. */
  lemma {:induction false} IndexOfAfter(a: string, b: string, c: char)
    requires c !in a
    ensures c in a + [c] + b && IndexOf(a + [c] + b, c) == |a|
    decreases |a|
  {
    var s := a + [c] + b;
    assert s[|a|] == c;
    if a != [] {
      assert s[1..] == a[1..] + [c] + b;
      IndexOfAfter(a[1..], b, c);
    }
  }

  /** Number of non-overlapping occurrences of `p`, scanned left to right (`s.count(p)`). */
  function Count(s: string, p: string): nat
    requires p != []
    decreases |s|
  {
    if |s| < |p| then 0
    else if StartsWith(s, p) then 1 + Count(s[|p|..], p)
    else Count(s[1..], p)
  }

  /** For a one-character pattern `count` is the plain character count. */
  lemma {:induction false} CountOneChar(s: string, c: char)
    ensures Count(s, [c]) == CountChar(s, c)
    decreases |s|
  {
    if s != [] {
      CountOneChar(s[1..], c);
    }
  }

  /** `s.replace(pat, repl)`: every non-overlapping occurrence, left to right. */
  function Replace(s: string, pat: string, repl: string): string
    requires pat != []
    decreases |s|
  {
    if |s| < |pat| then s
    else if StartsWith(s, pat) then repl + Replace(s[|pat|..], pat, repl)
    else [s[0]] + Replace(s[1..], pat, repl)
  }

  /** Replacing in a text that does not contain the pattern changes nothing. */
  lemma {:induction false} ReplaceAbsent(s: string, pat: string, repl: string)
    requires pat != [] && !Contains(s, pat)
    ensures Replace(s, pat, repl) == s
    decreases |s|
  {
    if |s| >= |pat| {
      assert s == [s[0]] + s[1..];
      ReplaceAbsent(s[1..], pat, repl);
    }
  }

  function LowerChar(c: char): char {
    if 'A' <= c <= 'Z' then (c as int + 32) as char else c
  }

  function UpperChar(c: char): char {
    if 'a' <= c <= 'z' then (c as int - 32) as char else c
  }

  /** `s.lower()` (ASCII letters only). */
  function Lower(s: string): (r: string)
    ensures |r| == |s| && forall i :: 0 <= i < |s| ==> r[i] == LowerChar(s[i])
  {
    seq(|s|, i requires 0 <= i < |s| => LowerChar(s[i]))
  }

  /** `s.upper()` (ASCII letters only). */
  function Upper(s: string): (r: string)
    ensures |r| == |s| && forall i :: 0 <= i < |s| ==> r[i] == UpperChar(s[i])
  {
    seq(|s|, i requires 0 <= i < |s| => UpperChar(s[i]))
  }

  /** Python's ordering of strings: lexicographic by code point. */
  predicate LexLe(a: string, b: string)
    decreases |a|
  {
    a == [] || (b != [] && (a[0] < b[0] || (a[0] == b[0] && LexLe(a[1..], b[1..]))))
  }

  lemma {:induction false} LexLeTotal(a: string, b: string)
    ensures LexLe(a, b) || LexLe(b, a)
    decreases |a|
  {
    if a != [] && b != [] && a[0] == b[0] {
      LexLeTotal(a[1..], b[1..]);
    }
  }

  lemma {:induction false} LexLeTrans(a: string, b: string, c: string)
    requires LexLe(a, b) && LexLe(b, c)
    ensures LexLe(a, c)
    decreases |a|
  {
    if a != [] && a[0] == b[0] && b[0] == c[0] {
      LexLeTrans(a[1..], b[1..], c[1..]);
    }
  }

  /** Length of the maximal whitespace run starting at `i` (what a greedy `\s*` takes). */
  function WsRun(s: string, i: nat): (n: nat)
    requires i <= |s|
    ensures i + n <= |s|
    ensures forall k :: i <= k < i + n ==> IsSpace(s[k])
    ensures i + n == |s| || !IsSpace(s[i + n])
    decreases |s| - i
  {
    if i < |s| && IsSpace(s[i]) then 1 + WsRun(s, i + 1) else 0
  }

  /** Length of the maximal run of word characters starting at `i` (a greedy `\w*`). */
  function WordRun(s: string, i: nat): (n: nat)
    requires i <= |s|
    ensures i + n <= |s|
    ensures forall k :: i <= k < i + n ==> IsWordChar(s[k])
    ensures i + n == |s| || !IsWordChar(s[i + n])
    decreases |s| - i
  {
    if i < |s| && IsWordChar(s[i]) then 1 + WordRun(s, i + 1) else 0
  }

  /** Index of the first line break at or after `i`, or the end of the text
      (where a greedy `.*` stops). */
  function LineEnd(s: string, i: nat): (e: nat)
    requires i <= |s|
    ensures i <= e <= |s|
    ensures forall k :: i <= k < e ==> s[k] != '\n'
    ensures e == |s| || s[e] == '\n'
    decreases |s| - i
  {
    if i < |s| && s[i] != '\n' then LineEnd(s, i + 1) else i
  }

  /** The members of `vocab` that occur in `text`, in vocabulary order (the loop
      `for a in vocab: if a in text: found.append(a)`). */
  function Present(vocab: seq<string>, text: string): (r: seq<string>)
    ensures forall i :: 0 <= i < |r| ==> Contains(text, r[i])
    decreases |vocab|
  {
    if vocab == [] then []
    else
      var last := vocab[|vocab| - 1];
      Present(vocab[..|vocab| - 1], text) + (if Contains(text, last) then [last] else [])
  }

  /** `found` is an order-preserving selection from `vocab`. */
  ghost predicate SubsequenceOf<T>(found: seq<T>, vocab: seq<T>) {
    exists idx: seq<nat> :: |idx| == |found|
      && (forall k :: 0 <= k < |idx| ==> idx[k] < |vocab| && vocab[idx[k]] == found[k])
      && (forall k, l :: 0 <= k < l < |idx| ==> idx[k] < idx[l])
  }

  /** The vocabulary filter keeps exactly the occurring members. */
  lemma {:induction false} PresentMembers(vocab: seq<string>, text: string)
    ensures forall a :: a in Present(vocab, text) <==> a in vocab && Contains(text, a)
    ensures |Present(vocab, text)| <= |vocab|
    decreases |vocab|
  {
    if vocab != [] {
      PresentMembers(vocab[..|vocab| - 1], text);
      assert vocab == vocab[..|vocab| - 1] + [vocab[|vocab| - 1]];
    }
  }

  /** The vocabulary filter keeps vocabulary order. */
  lemma {:induction false} PresentInOrder(vocab: seq<string>, text: string)
    ensures SubsequenceOf(Present(vocab, text), vocab)
    decreases |vocab|
  {
    if vocab == [] {
      var idx: seq<nat> := [];
      assert |idx| == |Present(vocab, text)|;
    } else {
      var init := vocab[..|vocab| - 1];
      var last := vocab[|vocab| - 1];
      PresentInOrder(init, text);
      SubsequenceSnoc(Present(init, text), init, last);
      assert vocab == init + [last];
    }
  }

  lemma SubsequenceSnoc<T>(found: seq<T>, vocab: seq<T>, x: T)
    requires SubsequenceOf(found, vocab)
    ensures SubsequenceOf(found + [x], vocab + [x]) && SubsequenceOf(found, vocab + [x])
  {
    var idx: seq<nat> :| |idx| == |found|
      && (forall k :: 0 <= k < |idx| ==> idx[k] < |vocab| && vocab[idx[k]] == found[k])
      && (forall k, l :: 0 <= k < l < |idx| ==> idx[k] < idx[l]);
    var v := vocab + [x];
    assert forall k :: 0 <= k < |idx| ==> idx[k] < |v| && v[idx[k]] == found[k];
    var idx' := idx + [|vocab|];
    var f := found + [x];
    assert forall k :: 0 <= k < |idx'| ==> idx'[k] < |v| && v[idx'[k]] == f[k];
    assert forall k, l :: 0 <= k < l < |idx'| ==> idx'[k] < idx'[l];
  }

  /** Index of the last '.' in `s`, or -1 (`s.rfind('.')`). */
  function RFind(s: string, c: char): (i: int)
    ensures -1 <= i < |s|
    ensures i >= 0 ==> s[i] == c
    ensures forall k :: i < k < |s| ==> s[k] != c
    decreases |s|
  {
    if s == [] then -1
    else if s[|s| - 1] == c then |s| - 1
    else RFind(s[..|s| - 1], c)
  }

  /** A text that neither begins nor ends with whitespace is its own `strip`. */
  lemma StripUnpadded(s: string)
    requires s == [] || (!IsSpace(s[0]) && !IsSpace(s[|s| - 1]))
    ensures Strip(s) == s
  {
  }

  /** A whitespace-only text strips to nothing, and so does each of its pieces. */
  lemma {:induction false} SplitAllSpace(s: string, c: char)
    requires AllSpace(s)
    ensures forall i :: 0 <= i < |Split(s, c)| ==> AllSpace(Split(s, c)[i])
    decreases |s|
  {
    if s != [] {
      SplitAllSpace(s[1..], c);
    }
  }

  /** Round trip: joining separator-free pieces and splitting again gives the pieces. */
  lemma {:induction false} JoinSplit(pieces: seq<string>, c: char)
    requires |pieces| >= 1
    requires forall i :: 0 <= i < |pieces| ==> c !in pieces[i]
    ensures Split(Join([c], pieces), c) == pieces
    decreases |pieces|
  {
    if |pieces| == 1 {
      SplitNoSep(pieces[0], c);
    } else {
      JoinSplit(pieces[1..], c);
      SplitAtFirst(pieces[0], Join([c], pieces[1..]), c);
      assert pieces == [pieces[0]] + pieces[1..];
    }
  }

  /** Joining one more part at the end. */
  lemma {:induction false} JoinSnoc(sep: string, parts: seq<string>, x: string)
    requires parts != []
    ensures Join(sep, parts + [x]) == Join(sep, parts) + sep + x
    decreases |parts|
  {
    if |parts| > 1 {
      assert (parts + [x])[1..] == parts[1..] + [x];
      JoinSnoc(sep, parts[1..], x);
    }
  }

  /** Containment survives appending text. */
  lemma ContainsAppend(s: string, t: string, p: string)
    requires Contains(s, p)
    ensures Contains(s + t, p)
  {
    ContainsAt(s, p);
    var i: nat :| OccursAt(s, p, i);
    assert (s + t)[i..i + |p|] == s[i..i + |p|];
    ContainsFromIndex(s + t, p, i);
  }

  /** Occurrences counted by `count` do not overlap, so they fit in the text. */
  lemma {:induction false} CountFits(s: string, p: string)
    requires p != []
    ensures Count(s, p) * |p| <= |s|
    decreases |s|
  {
    if |s| >= |p| {
      if StartsWith(s, p) {
        var n := Count(s[|p|..], p);
        CountFits(s[|p|..], p);
        assert Count(s, p) == 1 + n;
        OneMoreFits(n, |p|, |s|);
      } else {
        CountFits(s[1..], p);
      }
    }
  }

  lemma OneMoreFits(n: nat, k: nat, m: nat)
    requires k <= m && n * k <= m - k
    ensures (1 + n) * k <= m
  {
    assert (1 + n) * k == k + n * k;
  }

  /** A pattern that begins with `c` occurs no more often than `c` itself. */
  lemma {:induction false} CountAtMostFirstChar(s: string, p: string)
    requires p != []
    ensures Count(s, p) <= CountChar(s, p[0])
    decreases |s|
  {
    if |s| >= |p| {
      if StartsWith(s, p) {
        CountAtMostFirstChar(s[|p|..], p);
        assert s == s[..|p|] + s[|p|..];
        CountCharAppend(s[..|p|], s[|p|..], p[0]);
        assert s[..|p|][0] == p[0];
      } else {
        CountAtMostFirstChar(s[1..], p);
      }
    }
  }

  /** A whitespace run holds no other character. */
  lemma SpaceFree(w: string, c: char)
    requires AllSpace(w) && !IsSpace(c)
    ensures c !in w
  {
  }

  /** A non-space character of the text survives `strip`. */
  lemma StripKeeps(s: string, c: char)
    requires c in s && !IsSpace(c)
    ensures c in Strip(s)
  {
    var l := LStrip(s);
    LStripSpec(s);
    RStripSpec(l);
    var a := |s| - |l|;
    var t := RStrip(l);
    assert s == s[..a] + l;
    assert l == t + l[|t|..];
    SpaceFree(s[..a], c);
    SpaceFree(l[|t|..], c);
  }
  /** A text shorter than the pattern does not contain it. */
  lemma {:induction false} ContainsShort(s: string, p: string)
    requires |s| < |p|
    ensures !Contains(s, p)
    decreases |s|
  {
    if s != [] {
      ContainsShort(s[1..], p);
    }
  }

  /** Replacing removes a leading occurrence and goes on after it. */
  lemma ReplaceLeading(pat: string, x: string, repl: string)
    requires pat != []
    ensures Replace(pat + x, pat, repl) == repl + Replace(x, pat, repl)
  {
    assert (pat + x)[..|pat|] == pat;
    assert (pat + x)[|pat|..] == x;
  }

  /** Lower-casing works character by character. */
  lemma LowerAppend(s: string, t: string)
    ensures Lower(s + t) == Lower(s) + Lower(t)
  {
  }

  /** A text without upper-case ASCII letters is its own lower case. */
  lemma LowerNoUpper(s: string)
    requires forall i :: 0 <= i < |s| ==> !('A' <= s[i] <= 'Z')
    ensures Lower(s) == s
  {
  }
}
