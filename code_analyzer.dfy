/** The Java text extractors of the code analyser: the class-body brace scanner,
    method parameter and `throws` parsing, the flat configuration readers, the
    Spring annotation vocabulary, Spring component labelling and the file-suffix
    language table. Regular-expression matches are inputs (their capture groups);
    the literal scans that are simple enough are written out. */
module CodeAnalyzer {
  import opened Text
  import opened ConfigText

  // ---------------------------------------------------------------------------
  // Class header `class\s+NAME\s*{` and the brace-depth body scanner
  // ---------------------------------------------------------------------------

  /** The header `class`, whitespace, the class name, optional whitespace and `{`
      read at `p`: the index just past the `{`, or None. Both whitespace runs are
      greedy, so each reading is unique. */
  function HeaderEnd(content: string, name: string, p: nat): (e: Option<nat>)
    requires p <= |content|
    ensures e.Some? ==> p < e.value <= |content| && content[e.value - 1] == '{'
    ensures e.Some? ==> OccursAt(content, "class", p) && p + 5 < |content| && IsSpace(content[p + 5])
  {
    if !OccursAt(content, "class", p) then None
    else
      var w := WsRun(content, p + 5);
      if w == 0 || !OccursAt(content, name, p + 5 + w) then None
      else
        var b := p + 5 + w + |name|;
        var d := b + WsRun(content, b);
        if d < |content| && content[d] == '{' then Some(d + 1) else None
  }

  /** Leftmost header at or after `q` (what `re.search` finds). */
  function FindHeader(content: string, name: string, q: nat): (r: Option<nat>)
    requires q <= |content|
    ensures r.Some? ==> q <= r.value <= |content| && HeaderEnd(content, name, r.value).Some?
    ensures r.Some? ==> forall p :: q <= p < r.value ==> HeaderEnd(content, name, p).None?
    ensures r.None? ==> forall p :: q <= p <= |content| ==> HeaderEnd(content, name, p).None?
    decreases |content| - q
  {
    if HeaderEnd(content, name, q).Some? then Some(q)
    else if q == |content| then None
    else FindHeader(content, name, q + 1)
  }

  /** Index just past the `{` of the first header of class `name`, or None. */
  function BodyStart(content: string, name: string): (s: Option<nat>)
    ensures s.Some? ==> 0 < s.value <= |content| && content[s.value - 1] == '{'
  {
    match FindHeader(content, name, 0)
    case None => None
    case Some(p) => HeaderEnd(content, name, p)
  }

  /** The brace depth after scanning `s`, starting from the depth 1 of the opening brace. */
  function Depth(s: string): int {
    1 + CountChar(s, '{') - CountChar(s, '}')
  }

  /** Every prefix of `b` has at least as many `{` as `}`. */
  predicate NeverNegative(b: string) {
    forall k :: 0 <= k <= |b| ==> CountChar(b[..k], '}') <= CountChar(b[..k], '{')
  }

  predicate Balanced(b: string) {
    CountChar(b, '{') == CountChar(b, '}')
  }

  /** `body`, read from `s`, is closed by a `}` that brings the depth back to 0. */
  predicate Closes(content: string, s: nat, body: string) {
    s + |body| < |content| && content[s..s + |body|] == body && content[s + |body|] == '}'
    && Balanced(body) && NeverNegative(body)
  }

  /** The depth never reaches 0 from `s` to the end of the text. */
  predicate NeverCloses(content: string, s: nat)
    requires s <= |content|
  {
    forall k :: s <= k <= |content| ==> Depth(content[s..k]) > 0
  }

  lemma DepthStep(content: string, s: nat, k: nat)
    requires s <= k < |content|
    ensures Depth(content[s..k + 1]) ==
      Depth(content[s..k]) + (if content[k] == '{' then 1 else if content[k] == '}' then -1 else 0)
  {
    assert content[s..k + 1] == content[s..k] + [content[k]];
    CountCharAppend(content[s..k], [content[k]], '{');
    CountCharAppend(content[s..k], [content[k]], '}');
  }

  /** The scanning loop: from `start` with depth 1, one character at a time, until
      the depth is 0 or the text ends. It stops exactly at the first index where the
      depth of the scanned text is 0, or at the end of the text. */
  method ScanBody(content: string, start: nat) returns (stop: nat)
    requires start <= |content|
    ensures start <= stop <= |content|
    ensures forall k :: start <= k < stop ==> Depth(content[start..k]) > 0
    ensures stop == |content| || Depth(content[start..stop]) == 0
    ensures Depth(content[start..stop]) >= 0
  {
    var braceCount := 1;
    stop := start;
    while stop < |content| && braceCount > 0
      invariant start <= stop <= |content|
      invariant braceCount == Depth(content[start..stop]) && braceCount >= 0
      invariant forall k :: start <= k < stop ==> Depth(content[start..k]) > 0
      decreases |content| - stop
    {
      DepthStep(content, start, stop);
      if content[stop] == '{' {
        braceCount := braceCount + 1;
      } else if content[stop] == '}' {
        braceCount := braceCount - 1;
      }
      stop := stop + 1;
    }
  }

  /** The body between the class's opening brace and the brace that closes it.
      Without a header it is empty. Otherwise it is the text right after the `{`,
      and either a `}` at depth 0 closes it, or the braces never close and the
      body is the rest of the text without its last character. */
  method ExtractClassContent(content: string, name: string) returns (body: string)
    ensures BodyStart(content, name).None? ==> body == []
    ensures BodyStart(content, name).Some? ==>
      var s := BodyStart(content, name).value;
      s + |body| <= |content| && content[s..s + |body|] == body &&
      (Closes(content, s, body) ||
       (NeverCloses(content, s) && body == (if s == |content| then [] else content[s..|content| - 1])))
  {
    var start := BodyStart(content, name);
    if start.None? {
      return [];
    }
    var s := start.value;
    var stop := ScanBody(content, s);
    // Python's `content[s:stop - 1]` is empty when `stop - 1 < s`.
    body := if stop == s then [] else content[s..stop - 1];
    if Depth(content[s..stop]) == 0 {
      ScanClosed(content, s, stop);
    } else {
      ScanOpen(content, s, stop);
    }
  }

  lemma ScanOpen(content: string, s: nat, stop: nat)
    requires s <= stop <= |content|
    requires forall k :: s <= k < stop ==> Depth(content[s..k]) > 0
    requires stop == |content| || Depth(content[s..stop]) == 0
    requires Depth(content[s..stop]) > 0
    ensures stop == |content| && NeverCloses(content, s)
  {
  }

  lemma ScanClosed(content: string, s: nat, stop: nat)
    requires s <= stop <= |content|
    requires forall k :: s <= k < stop ==> Depth(content[s..k]) > 0
    requires Depth(content[s..stop]) == 0
    ensures stop > s && Closes(content, s, content[s..stop - 1])
  {
    assert content[s..s] == [];
    var body := content[s..stop - 1];
    DepthStep(content, s, stop - 1);
    forall k | 0 <= k <= |body|
      ensures CountChar(body[..k], '}') <= CountChar(body[..k], '{')
    {
      assert body[..k] == content[s..s + k];
    }
  }

  /** The closing brace is the first one at depth 0: at most one body closes. */
  lemma ClosesUnique(content: string, s: nat, b1: string, b2: string)
    requires Closes(content, s, b1) && Closes(content, s, b2)
    ensures b1 == b2
  {
    ClosedDepth(content, s, b1);
    ClosedDepth(content, s, b2);
    if |b1| < |b2| {
      OpenInside(content, s, b2, |b1|);
    } else if |b2| < |b1| {
      OpenInside(content, s, b1, |b2|);
    }
  }

  /** Right after a closed body the depth is 0. */
  lemma ClosedDepth(content: string, s: nat, body: string)
    requires Closes(content, s, body)
    ensures Depth(content[s..s + |body| + 1]) == 0
  {
    assert content[s..s + |body| + 1] == body + "}";
    CountCharAppend(body, "}", '{');
    CountCharAppend(body, "}", '}');
  }

  /** Inside a closed body the depth stays positive. */
  lemma OpenInside(content: string, s: nat, body: string, k: nat)
    requires Closes(content, s, body) && k < |body|
    ensures Depth(content[s..s + k + 1]) > 0
  {
    assert content[s..s + k + 1] == body[..k + 1];
  }

  /** A closed body and a never-closing scan exclude each other. */
  lemma ClosesExcludesNeverCloses(content: string, s: nat, body: string)
    requires s <= |content| && Closes(content, s, body)
    ensures !NeverCloses(content, s)
  {
    ClosedDepth(content, s, body);
  }

  /** Without the word `class` in the text there is no header, so no body. */
  lemma NoClassNoHeader(content: string, name: string)
    requires !Contains(content, "class")
    ensures BodyStart(content, name).None?
  {
    if FindHeader(content, name, 0).Some? {
      ContainsFromIndex(content, "class", FindHeader(content, name, 0).value);
    }
  }

  // ---------------------------------------------------------------------------
  // Parameters and `throws`
  // ---------------------------------------------------------------------------

  /** One parsed parameter. */
  datatype Param = Param(typ: string, name: string)

  /** The name is one token; the type is one or more tokens joined by single spaces. */
  predicate WellFormedParam(p: Param) {
    p.name != [] && NoSpace(p.name) && SplitWs(p.typ) != [] && Join(" ", SplitWs(p.typ)) == p.typ
  }

  /** One comma piece: stripped and split on whitespace; the last token is the name
      and the others, joined by single spaces, the type. Fewer than two tokens give
      nothing. */
  function ParamOf(piece: string): (r: Option<Param>)
    ensures r.Some? <==> |SplitWs(Strip(piece))| >= 2
    ensures r.Some? ==> WellFormedParam(r.value)
  {
    var toks := SplitWs(Strip(piece));
    if |toks| >= 2 then
      var n := |toks| - 1;
      SplitWsJoin(toks[..n]);
      Some(Param(Join(" ", toks[..n]), toks[n]))
    else None
  }

  /** The parameters of the comma pieces, in order. */
  function ParamsOf(pieces: seq<string>): (r: seq<Param>)
    ensures |r| <= |pieces|
    ensures forall i :: 0 <= i < |r| ==> WellFormedParam(r[i])
    decreases |pieces|
  {
    if pieces == [] then []
    else
      var rest := ParamsOf(pieces[..|pieces| - 1]);
      match ParamOf(pieces[|pieces| - 1])
      case None => rest
      case Some(p) => rest + [p]
  }

  /** The parameter list of a method's raw parameter text: at most one per comma
      piece, each well formed. */
  function ParamList(params: string): (r: seq<Param>)
    ensures |r| <= |Split(params, ',')|
    ensures forall i :: 0 <= i < |r| ==> WellFormedParam(r[i])
  {
    if Strip(params) == [] then [] else ParamsOf(Split(params, ','))
  }

  /** The parsing loop of the method extractor over the captured parameter text. */
  method ParseParameters(params: string) returns (parameters: seq<Param>)
    ensures parameters == ParamList(params)
  {
    parameters := [];
    if Strip(params) != [] {
      var pieces := Split(params, ',');
      for i := 0 to |pieces|
        invariant parameters == ParamsOf(pieces[..i])
      {
        ParamsOfPrefix(pieces, i);
        var param := ParseParameter(pieces[i]);
        if param.Some? {
          parameters := parameters + [param.value];
        }
      }
      assert pieces[..|pieces|] == pieces;
    }
  }

  /** One comma piece of the loop: stripped, skipped when blank, split on
      whitespace, and kept when it has at least a type and a name. */
  method ParseParameter(piece: string) returns (param: Option<Param>)
    ensures param == ParamOf(piece)
  {
    param := None;
    var stripped := Strip(piece);
    if stripped != [] {
      var parts := SplitWs(stripped);
      if |parts| >= 2 {
        var n := |parts| - 1;
        param := Some(Param(Join(" ", parts[..n]), parts[n]));
      }
    } else {
      assert SplitWs(stripped) == [];
    }
  }

  lemma ParamsOfLast(pieces: seq<string>)
    requires pieces != []
    ensures var last := ParamOf(pieces[|pieces| - 1]);
      ParamsOf(pieces) == ParamsOf(pieces[..|pieces| - 1]) + (if last.Some? then [last.value] else [])
  {
  }

  lemma ParamsOfPrefix(pieces: seq<string>, i: nat)
    requires i < |pieces|
    ensures ParamsOf(pieces[..i + 1]) == ParamsOf(pieces[..i]) + (if ParamOf(pieces[i]).Some? then [ParamOf(pieces[i]).value] else [])
  {
    assert pieces[..i + 1][..i] == pieces[..i];
  }

  lemma SplitWsAllSpace(s: string)
    requires AllSpace(s)
    ensures SplitWs(s) == []
    decreases |s|
  {
    if s != [] {
      SplitWsAllSpace(s[1..]);
    }
  }

  lemma {:induction false} ParamsOfBlank(pieces: seq<string>)
    requires forall i :: 0 <= i < |pieces| ==> AllSpace(pieces[i])
    ensures ParamsOf(pieces) == []
    decreases |pieces|
  {
    if pieces != [] {
      ParamsOfBlank(pieces[..|pieces| - 1]);
      LStripAllSpace(pieces[|pieces| - 1]);
      SplitWsAllSpace(Strip(pieces[|pieces| - 1]));
    }
  }

  /** The blank-list guard changes nothing: whitespace-only text has only blank
      pieces, which give no parameters anyway. Hence a blank or whitespace-only
      parameter text gives no parameters. */
  lemma ParamListGuard(params: string)
    ensures ParamList(params) == ParamsOf(Split(params, ','))
    ensures AllSpace(params) ==> ParamList(params) == []
  {
    if Strip(params) == [] {
      StripEmpty(params);
    }
    if AllSpace(params) {
      BlankParams(params);
    }
  }

  lemma BlankParams(params: string)
    requires AllSpace(params)
    ensures ParamsOf(Split(params, ',')) == []
  {
    SplitAllSpace(params, ',');
    ParamsOfBlank(Split(params, ','));
  }

  /** The text a parameter is written as: type, one space, name. */
  function Render(p: Param): string {
    p.typ + " " + p.name
  }

  /** The pieces that `Render` writes for each parameter, in order. */
  function RenderAll(ps: seq<Param>): (r: seq<string>)
    ensures |r| == |ps| && forall i :: 0 <= i < |ps| ==> r[i] == Render(ps[i])
    decreases |ps|
  {
    if ps == [] then [] else RenderAll(ps[..|ps| - 1]) + [Render(ps[|ps| - 1])]
  }

  lemma ParamOfRender(p: Param)
    requires WellFormedParam(p)
    ensures ParamOf(Render(p)) == Some(p)
  {
    var toks := SplitWs(p.typ) + [p.name];
    JoinSnoc(" ", SplitWs(p.typ), p.name);
    assert Join(" ", toks) == Render(p);
    assert forall i :: 0 <= i < |toks| ==> toks[i] != [] && NoSpace(toks[i]);
    SplitWsJoin(toks);
    JoinUnpadded(toks);
    StripUnpadded(Render(p));
    assert toks[..|toks| - 1] == SplitWs(p.typ);
  }

  lemma {:induction false} ParamsOfRendered(ps: seq<Param>)
    requires forall i :: 0 <= i < |ps| ==> WellFormedParam(ps[i])
    ensures ParamsOf(RenderAll(ps)) == ps
    decreases |ps|
  {
    if ps != [] {
      var init, last := ps[..|ps| - 1], ps[|ps| - 1];
      assert ps == init + [last];
      ParamsOfRendered(init);
      assert RenderAll(ps) == RenderAll(init) + [Render(last)];
      ParamOfRender(last);
      ParamsOfSnoc(RenderAll(init), Render(last), last);
    }
  }

  lemma ParamsOfSnoc(pieces: seq<string>, piece: string, p: Param)
    requires ParamOf(piece) == Some(p)
    ensures ParamsOf(pieces + [piece]) == ParamsOf(pieces) + [p]
  {
    assert (pieces + [piece])[..|pieces|] == pieces;
  }

  /** Round trip: well-formed parameters without commas, written out as
      `type name` and joined with commas, parse back to themselves. */
  lemma ParamListRoundTrip(ps: seq<Param>)
    requires ps != []
    requires forall i :: 0 <= i < |ps| ==> WellFormedParam(ps[i]) && ',' !in Render(ps[i])
    ensures ParamList(Join(",", RenderAll(ps))) == ps
  {
    var pieces := RenderAll(ps);
    JoinSplit(pieces, ',');
    assert [','] == ",";
    ParamListGuard(Join(",", pieces));
    ParamsOfRendered(ps);
  }

  /** The `throws` clause: absent (or empty) gives no names, otherwise the stripped
      comma pieces. */
  function ThrowsList(throws: Option<string>): (r: seq<string>)
    ensures throws.None? ==> r == []
    ensures throws.Some? && throws.value != [] ==> |r| == CountChar(throws.value, ',') + 1
  {
    if throws.None? || throws.value == [] then []
    else
      var pieces := Split(throws.value, ',');
      SplitJoin(throws.value, ',');
      seq(|pieces|, i requires 0 <= i < |pieces| => Strip(pieces[i]))
  }

  /** Each exception name is free of surrounding whitespace and of commas. */
  lemma ThrowsListTrimmed(throws: Option<string>)
    ensures forall i :: 0 <= i < |ThrowsList(throws)| ==>
      var t := ThrowsList(throws)[i];
      ',' !in t && (t == [] || (!IsSpace(t[0]) && !IsSpace(t[|t| - 1])))
  {
    if throws.Some? && throws.value != [] {
      var pieces := Split(throws.value, ',');
      forall i | 0 <= i < |pieces|
        ensures var t := Strip(pieces[i]); ',' !in t && (t == [] || (!IsSpace(t[0]) && !IsSpace(t[|t| - 1])))
      {
        StripEnds(pieces[i]);
        var t := Strip(pieces[i]);
        var a := StripOffset(pieces[i]);
        assert forall k :: 0 <= k < |t| ==> t[k] == pieces[i][a + k];
      }
    }
  }

  /** Round trip: unpadded names without commas, joined with commas, come back. */
  lemma ThrowsListRoundTrip(names: seq<string>)
    requires names != []
    requires forall i :: 0 <= i < |names| ==> Unpadded(names[i]) && ',' !in names[i]
    ensures ThrowsList(Some(Join(",", names))) == names
  {
    assert [','] == ",";
    JoinSplit(names, ',');
    JoinNonEmpty(names, ",");
    ThrowsListStripped(Join(",", names), names);
  }

  lemma ThrowsListStripped(t: string, names: seq<string>)
    requires t != [] && Split(t, ',') == names
    requires forall i :: 0 <= i < |names| ==> Unpadded(names[i])
    ensures ThrowsList(Some(t)) == names
  {
    ThrowsListPieces(t);
    var r := ThrowsList(Some(t));
    forall i | 0 <= i < |names|
      ensures r[i] == names[i]
    {
      StripUnpadded(names[i]);
    }
  }

  lemma ThrowsListPieces(t: string)
    requires t != []
    ensures |ThrowsList(Some(t))| == |Split(t, ',')|
    ensures forall i :: 0 <= i < |Split(t, ',')| ==> ThrowsList(Some(t))[i] == Strip(Split(t, ',')[i])
  {
  }

  lemma {:induction false} JoinNonEmpty(parts: seq<string>, sep: string)
    requires parts != [] && parts[0] != []
    ensures Join(sep, parts) != []
  {
  }

  /** One regex match of a method header: its capture groups. */
  datatype MethodMatch = MethodMatch(returnType: string, name: string, params: string, throws: Option<string>)

  /** One extracted method. */
  datatype JavaMethod = JavaMethod(name: string, returnType: string, parameters: seq<Param>, throws: seq<string>)

  function MethodOf(m: MethodMatch): JavaMethod {
    JavaMethod(m.name, m.returnType, ParamList(m.params), ThrowsList(m.throws))
  }

  /** The method extractor's loop over the header matches, in match order. */
  method ExtractJavaMethods(matches: seq<MethodMatch>) returns (methods: seq<JavaMethod>)
    ensures |methods| == |matches|
    ensures forall i :: 0 <= i < |matches| ==> methods[i] == MethodOf(matches[i])
  {
    methods := [];
    for i := 0 to |matches|
      invariant |methods| == i
      invariant forall k :: 0 <= k < i ==> methods[k] == MethodOf(matches[k])
    {
      var m := matches[i];
      var parameters := ParseParameters(m.params);
      methods := methods + [JavaMethod(m.name, m.returnType, parameters, ThrowsList(m.throws))];
    }
  }

  // ---------------------------------------------------------------------------
  // Flat configuration readers
  // ---------------------------------------------------------------------------

  /** The `.properties` reader: key lines split at the first `=`. */
  method ExtractProperties(content: string) returns (properties: map<string, string>)
    ensures properties == Entries(Split(content, '\n'), '=')
  {
    properties := ParseFlat(content, '=');
  }

  /** The YAML reader: key lines split at the first `:`. */
  method ExtractYamlConfig(content: string) returns (config: map<string, string>)
    ensures config == Entries(Split(content, '\n'), ':')
  {
    config := ParseFlat(content, ':');
  }

  // ---------------------------------------------------------------------------
  // Spring annotation vocabulary
  // ---------------------------------------------------------------------------

  /** The 21 annotations the analyser recognises. */
  const SpringVocabulary: seq<string> := [
    "@RestController", "@Controller", "@Service", "@Repository", "@Component", "@Autowired",
    "@RequestMapping", "@GetMapping", "@PostMapping", "@PutMapping", "@DeleteMapping",
    "@RequestBody", "@PathVariable", "@RequestParam", "@ResponseBody", "@EnableAutoConfiguration",
    "@SpringBootApplication", "@Configuration", "@Bean", "@Value", "@Profile"]

  /** The vocabulary members that occur in the text. The source loops over a set,
      so the order of its list is not fixed; the result is a set here. */
  method ExtractSpringAnnotations(content: string) returns (found: set<string>)
    ensures found == set a | a in SpringVocabulary && Contains(content, a)
  {
    found := {};
    for i := 0 to |SpringVocabulary|
      invariant found == set a | a in SpringVocabulary[..i] && Contains(content, a)
    {
      assert SpringVocabulary[..i + 1] == SpringVocabulary[..i] + [SpringVocabulary[i]];
      if Contains(content, SpringVocabulary[i]) {
        found := found + {SpringVocabulary[i]};
      }
    }
    assert SpringVocabulary[..|SpringVocabulary|] == SpringVocabulary;
  }

  /** More text can only add annotations. */
  lemma AnnotationsGrow(content: string, more: string, a: string)
    requires a in SpringVocabulary && Contains(content, a)
    ensures a in SpringVocabulary && Contains(content + more, a)
  {
    ContainsAppend(content, more, a);
  }

  // ---------------------------------------------------------------------------
  // Spring components
  // ---------------------------------------------------------------------------

  /** What the analyser knows about one class. */
  datatype ClassInfo = ClassInfo(name: string, annotations: seq<string>, methods: seq<JavaMethod>)

  /** One component entry. */
  datatype SpringComponent = SpringComponent(cls: string, kind: string, annotations: seq<string>, methods: seq<JavaMethod>)

  const ComponentKinds: set<string> := {"Controller", "Service", "Repository", "Component"}

  /** The component table, keyed by the annotation with its `@`. */
  function ComponentLabel(a: string): (r: Option<string>)
    ensures r.Some? <==> a in ["@RestController", "@Controller", "@Service", "@Repository", "@Component"]
    ensures r.Some? ==> r.value in ComponentKinds
  {
    if a == "@RestController" || a == "@Controller" then Some("Controller")
    else if a == "@Service" then Some("Service")
    else if a == "@Repository" then Some("Repository")
    else if a == "@Component" then Some("Component")
    else None
  }

  /** A method whose name contains get, post, put or delete. */
  predicate IsEndpointName(name: string) {
    Contains(name, "get") || Contains(name, "post") || Contains(name, "put") || Contains(name, "delete")
  }

  /** The methods whose names look like request handlers, in order. */
  function EndpointMethods(ms: seq<JavaMethod>): (r: seq<JavaMethod>)
    ensures forall m :: m in r <==> m in ms && IsEndpointName(m.name)
    ensures |r| <= |ms|
    ensures SubsequenceOf(r, ms)
    decreases |ms|
  {
    if ms == [] then
      var idx: seq<nat> := [];
      assert |idx| == 0;
      []
    else
      var init := ms[..|ms| - 1];
      var last := ms[|ms| - 1];
      assert ms == init + [last];
      SubsequenceSnoc(EndpointMethods(init), init, last);
      EndpointMethods(init) + (if IsEndpointName(last.name) then [last] else [])
  }

  /** The entries for class `c` from its first annotations `anns`. */
  function ClassComponents(c: ClassInfo, anns: seq<string>): (r: seq<SpringComponent>)
    ensures |r| <= |anns|
    ensures forall i :: 0 <= i < |r| ==> r[i].kind in ComponentKinds
    decreases |anns|
  {
    if anns == [] then []
    else
      var rest := ClassComponents(c, anns[..|anns| - 1]);
      match ComponentLabel(anns[|anns| - 1])
      case None => rest
      case Some(kind) => rest + [SpringComponent(c.name, kind, c.annotations, EndpointMethods(c.methods))]
  }

  /** All entries: classes in order, each class's annotations in order. */
  function Components(classes: seq<ClassInfo>): (r: seq<SpringComponent>)
    ensures forall i :: 0 <= i < |r| ==> r[i].kind in ComponentKinds
    decreases |classes|
  {
    if classes == [] then []
    else
      var c := classes[|classes| - 1];
      Components(classes[..|classes| - 1]) + ClassComponents(c, c.annotations)
  }

  /** The component loop: for each class, for each of its annotations, one entry
      when the annotation is in the table. The second argument is unused, as in
      the source. */
  method IdentifySpringComponents(classes: seq<ClassInfo>, annotations: seq<string>) returns (components: seq<SpringComponent>)
    ensures components == Components(classes)
  {
    components := [];
    for i := 0 to |classes|
      invariant components == Components(classes[..i])
    {
      var c := classes[i];
      ComponentsStep(classes, i);
      for j := 0 to |c.annotations|
        invariant components == Components(classes[..i]) + ClassComponents(c, c.annotations[..j])
      {
        ClassComponentsStep(c, c.annotations, j);
        var kind := ComponentLabel(c.annotations[j]);
        if kind.Some? {
          components := components + [SpringComponent(c.name, kind.value, c.annotations, EndpointMethods(c.methods))];
        }
      }
      assert c.annotations[..|c.annotations|] == c.annotations;
    }
    assert classes[..|classes|] == classes;
  }

  lemma ComponentsStep(classes: seq<ClassInfo>, i: nat)
    requires i < |classes|
    ensures Components(classes[..i + 1]) == Components(classes[..i]) + ClassComponents(classes[i], classes[i].annotations)
  {
    assert classes[..i + 1][..i] == classes[..i];
  }

  lemma ClassComponentsStep(c: ClassInfo, anns: seq<string>, j: nat)
    requires j < |anns|
    ensures ClassComponents(c, anns[..j + 1]) == ClassComponents(c, anns[..j]) +
      match ComponentLabel(anns[j])
      case None => []
      case Some(kind) => [SpringComponent(c.name, kind, c.annotations, EndpointMethods(c.methods))]
  {
    assert anns[..j + 1][..j] == anns[..j];
  }

  /** Number of annotations in `anns` that the table labels. */
  function LabelledCount(anns: seq<string>): nat
    decreases |anns|
  {
    if anns == [] then 0
    else LabelledCount(anns[..|anns| - 1]) + (if ComponentLabel(anns[|anns| - 1]).Some? then 1 else 0)
  }

  /** One entry per labelled annotation; each entry names the class, carries its
      label from the table, the class's annotations and its request-handler methods. */
  lemma {:induction false} ClassComponentsSpec(c: ClassInfo, anns: seq<string>)
    ensures |ClassComponents(c, anns)| == LabelledCount(anns)
    ensures forall e :: e in ClassComponents(c, anns) ==>
      e.cls == c.name && e.annotations == c.annotations && e.methods == EndpointMethods(c.methods)
      && exists a :: a in anns && ComponentLabel(a) == Some(e.kind)
    decreases |anns|
  {
    if anns != [] {
      var init := anns[..|anns| - 1];
      ClassComponentsSpec(c, init);
      forall e | e in ClassComponents(c, anns)
        ensures exists a :: a in anns && ComponentLabel(a) == Some(e.kind)
      {
        if e in ClassComponents(c, init) {
          var a :| a in init && ComponentLabel(a) == Some(e.kind);
          assert a in anns;
        } else {
          assert ComponentLabel(anns[|anns| - 1]) == Some(e.kind);
        }
      }
    }
  }

  /** Class order: the entries of concatenated class lists are the concatenated entries. */
  lemma {:induction false} ComponentsAppend(xs: seq<ClassInfo>, ys: seq<ClassInfo>)
    ensures Components(xs + ys) == Components(xs) + Components(ys)
    decreases |ys|
  {
    if ys == [] {
      assert xs + ys == xs;
    } else {
      var init := ys[..|ys| - 1];
      assert (xs + ys)[..|xs + ys| - 1] == xs + init;
      ComponentsAppend(xs, init);
    }
  }

  /** Annotation order within a class: entries of concatenated annotation lists. */
  lemma {:induction false} ClassComponentsAppend(c: ClassInfo, xs: seq<string>, ys: seq<string>)
    ensures ClassComponents(c, xs + ys) == ClassComponents(c, xs) + ClassComponents(c, ys)
    decreases |ys|
  {
    if ys == [] {
      assert xs + ys == xs;
    } else {
      var init := ys[..|ys| - 1];
      assert (xs + ys)[..|xs + ys| - 1] == xs + init;
      ClassComponentsAppend(c, xs, init);
    }
  }

  /** Names without a leading `@` are never in the table. */
  lemma {:induction false} BareNamesNoComponents(classes: seq<ClassInfo>)
    requires forall i, j :: 0 <= i < |classes| && 0 <= j < |classes[i].annotations| ==>
      !StartsWith(classes[i].annotations[j], "@")
    ensures Components(classes) == []
    decreases |classes|
  {
    if classes != [] {
      var init := classes[..|classes| - 1];
      var c := classes[|classes| - 1];
      assert forall i, j :: 0 <= i < |init| && 0 <= j < |init[i].annotations| ==>
        init[i].annotations[j] == classes[i].annotations[j];
      BareNamesNoComponents(init);
      BareClassNoComponents(c, c.annotations);
    }
  }

  lemma {:induction false} BareClassNoComponents(c: ClassInfo, anns: seq<string>)
    requires forall j :: 0 <= j < |anns| ==> !StartsWith(anns[j], "@")
    ensures ClassComponents(c, anns) == []
    decreases |anns|
  {
    if anns != [] {
      BareClassNoComponents(c, anns[..|anns| - 1]);
    }
  }

  // Class annotations: `@([^\s(]+)` over the annotation text in front of the class.

  /** Length of the run of characters other than whitespace and `(` from `i`. */
  function NameRun(s: string, i: nat): (n: nat)
    requires i <= |s|
    ensures i + n <= |s|
    ensures forall k :: i <= k < i + n ==> !IsSpace(s[k]) && s[k] != '('
    decreases |s| - i
  {
    if i < |s| && !IsSpace(s[i]) && s[i] != '(' then 1 + NameRun(s, i + 1) else 0
  }

  /** `re.findall(r'@([^\s(]+)', s[i..])`: the names after each `@`, without it. */
  function AtNames(s: string, i: nat): (r: seq<string>)
    requires i <= |s|
    ensures forall k :: 0 <= k < |r| ==> r[k] != []
    decreases |s| - i
  {
    if i == |s| then []
    else if s[i] == '@' && NameRun(s, i + 1) > 0 then
      var n := NameRun(s, i + 1);
      [s[i + 1..i + 1 + n]] + AtNames(s, i + 1 + n)
    else AtNames(s, i + 1)
  }

  /** Unless the text holds `@@`, no captured name starts with `@`. */
  lemma {:induction false} AtNamesBare(s: string, i: nat)
    requires i <= |s| && !Contains(s, "@@")
    ensures forall k :: 0 <= k < |AtNames(s, i)| ==> !StartsWith(AtNames(s, i)[k], "@")
    decreases |s| - i
  {
    if i < |s| {
      if s[i] == '@' && NameRun(s, i + 1) > 0 {
        var n := NameRun(s, i + 1);
        AtNamesBare(s, i + 1 + n);
        if s[i + 1] == '@' {
          assert s[i..i + 2] == "@@";
          ContainsFromIndex(s, "@@", i);
        }
        StartsWithChar(s[i + 1..i + 1 + n], '@');
        assert "@" == ['@'];
      } else {
        AtNamesBare(s, i + 1);
      }
    }
  }

  /** As written: the caller feeds each class's captured names, which lack the `@`,
      to the table keyed with `@`, so no class becomes a component. */
  lemma ExtractedAnnotationsNeverClassify(text: string, name: string, ms: seq<JavaMethod>)
    requires !Contains(text, "@@")
    ensures Components([ClassInfo(name, AtNames(text, 0), ms)]) == []
  {
    AtNamesBare(text, 0);
    var c := ClassInfo(name, AtNames(text, 0), ms);
    BareClassNoComponents(c, c.annotations);
    assert [c][..0] == [];
  }

  /** The captured names with their `@` put back. */
  function TaggedNames(names: seq<string>): (r: seq<string>)
    ensures |r| == |names|
    ensures forall k :: 0 <= k < |r| ==> r[k] == "@" + names[k] && StartsWith(r[k], "@")
  {
    seq(|names|, k requires 0 <= k < |names| => "@" + names[k])
  }

  /** With the `@` put back, a `@RestController` class is a Controller. */
  lemma TaggedRestControllerIsController(name: string, ms: seq<JavaMethod>)
    ensures var c := ClassInfo(name, TaggedNames(["RestController"]), ms);
      Components([c]) == [SpringComponent(name, "Controller", ["@RestController"], EndpointMethods(ms))]
  {
    var c := ClassInfo(name, TaggedNames(["RestController"]), ms);
    assert "@" + "RestController" == "@RestController";
    assert c.annotations == ["@RestController"];
    assert [c][..0] == [];
    assert c.annotations[..0] == [];
  }

  /** Corrected class annotations: the captured names with their `@`, so that
      they match the component table's keys. */
  function ClassAnnotations(text: string): (r: seq<string>)
    ensures |r| == |AtNames(text, 0)|
    ensures forall k :: 0 <= k < |r| ==> r[k] == "@" + AtNames(text, 0)[k]
  {
    TaggedNames(AtNames(text, 0))
  }

  /** With the corrected annotations, a class written after `@RestController` is
      listed as a Controller with its request-handler methods. */
  lemma CorrectedRestControllerClassifies(name: string, ms: seq<JavaMethod>)
    ensures Components([ClassInfo(name, ClassAnnotations("@RestController\n"), ms)]) ==
      [SpringComponent(name, "Controller", ["@RestController"], EndpointMethods(ms))]
  {
    RestControllerCaptured();
    TaggedRestControllerIsController(name, ms);
  }

  /** The bare names of `@RestController` in front of a class. */
  lemma RestControllerCaptured()
    ensures AtNames("@RestController\n", 0) == ["RestController"]
  {
    var n := "RestController";
    assert Letters(n);
    AtNamesSingle(n);
    assert "@" + n + "\n" == "@RestController\n";
  }

  lemma {:induction false} NameRunTo(s: string, i: nat, j: nat)
    requires i <= j <= |s|
    requires forall k :: i <= k < j ==> !IsSpace(s[k]) && s[k] != '('
    requires j == |s| || IsSpace(s[j]) || s[j] == '('
    ensures NameRun(s, i) == j - i
    decreases j - i
  {
    if i < j {
      NameRunTo(s, i + 1, j);
    }
  }

  predicate Letters(n: string) {
    forall k :: 0 <= k < |n| ==> ('a' <= n[k] <= 'z' || 'A' <= n[k] <= 'Z')
  }

  /** One annotation of letters followed by a line break gives its bare name. */
  lemma AtNamesSingle(n: string)
    requires n != [] && Letters(n)
    ensures AtNames("@" + n + "\n", 0) == [n]
  {
    var s := "@" + n + "\n";
    LettersRun(s, n);
    assert s[1..|n| + 1] == n;
    AtNamesLineEnd(s, |n| + 1);
  }

  lemma LettersRun(s: string, n: string)
    requires n != [] && Letters(n) && s == "@" + n + "\n"
    ensures NameRun(s, 1) == |n|
  {
    forall k | 1 <= k < |n| + 1
      ensures !IsSpace(s[k]) && s[k] != '('
    {
      assert s[k] == n[k - 1];
    }
    assert s[|n| + 1] == '\n';
    NameRunTo(s, 1, |n| + 1);
  }

  lemma AtNamesLineEnd(s: string, i: nat)
    requires i + 1 == |s| && s[i] == '\n'
    ensures AtNames(s, i) == []
  {
    assert AtNames(s, i + 1) == [];
  }

  // ---------------------------------------------------------------------------
  // Language of a file
  // ---------------------------------------------------------------------------

  /** `Path(name).suffix` for a final path component: from the last `.`, unless
      that `.` is the first or the last character. */
  function Suffix(name: string): (r: string)
    ensures r == [] || (r[0] == '.' && |r| >= 2)
  {
    var i := RFind(name, '.');
    if 0 < i < |name| - 1 then name[i..] else []
  }

  /** The suffixes with a known language. */
  const KnownSuffixes: seq<string> := [".java", ".xml", ".yml", ".yaml", ".properties", ".py", ".js", ".ts"]

  /** The suffix table, on the lower-cased suffix: a known suffix names its
      language, anything else is unknown. */
  function LanguageOfSuffix(suffix: string): (r: string)
    ensures r in ["java", "xml", "yml", "yaml", "properties", "python", "javascript", "typescript", "unknown"]
    ensures r == "unknown" <==> suffix !in KnownSuffixes
  {
    if suffix == ".java" then "java"
    else if suffix == ".xml" then "xml"
    else if suffix == ".yml" then "yml"
    else if suffix == ".yaml" then "yaml"
    else if suffix == ".properties" then "properties"
    else if suffix == ".py" then "python"
    else if suffix == ".js" then "javascript"
    else if suffix == ".ts" then "typescript"
    else "unknown"
  }

  /** The language of a file name from its lower-cased suffix. */
  function DetectLanguage(name: string): (r: string)
    ensures Suffix(name) == [] ==> r == "unknown"
    ensures r == "unknown" <==> Lower(Suffix(name)) !in KnownSuffixes
  {
    LanguageOfSuffix(Lower(Suffix(name)))
  }

  /** The suffix is lower-cased before the lookup, so the letter case of the name
      does not matter. */
  lemma DetectLanguageUpper(name: string)
    ensures DetectLanguage(Upper(name)) == DetectLanguage(name)
  {
    SuffixUpper(name);
  }

  lemma SuffixUpper(name: string)
    ensures Lower(Suffix(Upper(name))) == Lower(Suffix(name))
  {
    var u := Upper(name);
    RFindUpper(name);
    var i := RFind(name, '.');
    if 0 < i < |name| - 1 {
      assert Lower(u[i..]) == Lower(name[i..]);
    }
  }

  /** Upper-casing keeps every dot where it was and adds none. */
  lemma RFindUpper(name: string)
    ensures RFind(Upper(name), '.') == RFind(name, '.')
  {
    var u := Upper(name);
    assert forall k :: 0 <= k < |name| ==> (u[k] == '.' <==> name[k] == '.');
  }

  /** The suffix of `stem.ext` is `.ext` when the stem is not empty and `ext`
      holds no dot. */
  lemma SuffixOf(stem: string, ext: string)
    requires stem != [] && ext != [] && '.' !in ext
    ensures Suffix(stem + "." + ext) == "." + ext
  {
    var name := stem + "." + ext;
    RFindAfter(stem + ".", ext, '.');
    assert name[|stem|..] == "." + ext;
  }

  lemma {:induction false} RFindAfter(a: string, b: string, c: char)
    requires a != [] && a[|a| - 1] == c && c !in b
    ensures RFind(a + b, c) == |a| - 1
    decreases |b|
  {
    if b == [] {
      assert a + b == a;
    } else {
      assert (a + b)[..|a + b| - 1] == a + b[..|b| - 1];
      RFindAfter(a, b[..|b| - 1], c);
    }
  }

  /** A name without a dot, or whose only dot is its first character, has no
      suffix, so its language is unknown. */
  lemma NoSuffixUnknown(name: string)
    requires '.' !in name || (name[0] == '.' && '.' !in name[1..])
    ensures Suffix(name) == [] && DetectLanguage(name) == "unknown"
  {
  }

  /** The languages recognised, with their suffixes in any letter case: a `.java`
      file is Java, and so is a `.JAVA` one. */
  lemma JavaFile(stem: string)
    requires stem != []
    ensures DetectLanguage(stem + ".java") == "java" && DetectLanguage(stem + ".JAVA") == "java"
  {
    SuffixOf(stem, "java");
    SuffixOf(stem, "JAVA");
    assert "." + "java" == ".java" && "." + "JAVA" == ".JAVA";
    assert stem + "." + "java" == stem + ".java" && stem + "." + "JAVA" == stem + ".JAVA";
    LowerJava();
  }

  lemma LowerJava()
    ensures Lower(".JAVA") == ".java" && Lower(".java") == ".java"
  {
    var u, l := Lower(".JAVA"), Lower(".java");
    assert u[0] == '.' && u[1] == 'j' && u[2] == 'a' && u[3] == 'v' && u[4] == 'a';
    assert l[0] == '.' && l[1] == 'j' && l[2] == 'a' && l[3] == 'v' && l[4] == 'a';
  }
}
