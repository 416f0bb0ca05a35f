/** The Java service's text-only checks: a structural summary of a Java file,
    a summary of a configuration file by its extension, and a count-based brace
    and parenthesis validator. Reading files and the project-layout probes are
    outside this module. */
module JavaService {
  import opened Text
  import opened ConfigText
  import CodeAnalyzer

  // ---------------------------------------------------------------------------
  // Java file summary
  // ---------------------------------------------------------------------------

  /** The service's own annotation list, in its order. */
  const JavaAnnotations: seq<string> := [
    "@RestController", "@Controller", "@Service", "@Repository",
    "@Component", "@Autowired", "@RequestMapping", "@GetMapping",
    "@PostMapping", "@SpringBootApplication", "@Configuration"]

  datatype JavaAnalysis = JavaAnalysis(
    hasPackage: bool, hasImports: bool, classCount: nat, interfaceCount: nat,
    methodCount: nat, springAnnotations: seq<string>)

  /** Substring flags and counts, then one pass over the annotation list that
      appends each member occurring in the text. */
  method AnalyzeJavaFile(content: string) returns (analysis: JavaAnalysis)
    ensures analysis.hasPackage == Contains(content, "package")
    ensures analysis.hasImports == Contains(content, "import")
    ensures analysis.classCount == Count(content, "class ")
    ensures analysis.interfaceCount == Count(content, "interface ")
    ensures analysis.methodCount == Count(content, "public ") + Count(content, "private ") + Count(content, "protected ")
    ensures analysis.springAnnotations == Present(JavaAnnotations, content)
  {
    var found: seq<string> := [];
    for i := 0 to |JavaAnnotations|
      invariant found == Present(JavaAnnotations[..i], content)
    {
      assert JavaAnnotations[..i + 1][..i] == JavaAnnotations[..i];
      if Contains(content, JavaAnnotations[i]) {
        found := found + [JavaAnnotations[i]];
      }
    }
    assert JavaAnnotations[..|JavaAnnotations|] == JavaAnnotations;
    analysis := JavaAnalysis(
      Contains(content, "package"), Contains(content, "import"),
      Count(content, "class "), Count(content, "interface "),
      Count(content, "public ") + Count(content, "private ") + Count(content, "protected "),
      found);
  }

  /** The listed annotations are exactly the list members occurring in the text,
      in list order. */
  lemma JavaAnnotationsFound(content: string)
    ensures forall a :: a in Present(JavaAnnotations, content) <==> a in JavaAnnotations && Contains(content, a)
    ensures SubsequenceOf(Present(JavaAnnotations, content), JavaAnnotations)
  {
    PresentMembers(JavaAnnotations, content);
    PresentInOrder(JavaAnnotations, content);
  }

  /** Every annotation the service reports is one the code analyzer reports for
      the same text. */
  lemma JavaAnnotationsWithinAnalyzer(content: string)
    ensures forall a :: a in Present(JavaAnnotations, content) ==>
      a in (set b | b in CodeAnalyzer.SpringVocabulary && Contains(content, b))
  {
    PresentMembers(JavaAnnotations, content);
    forall a | a in JavaAnnotations
      ensures a in CodeAnalyzer.SpringVocabulary
    {
    }
  }

  // ---------------------------------------------------------------------------
  // Configuration file summary
  // ---------------------------------------------------------------------------

  /** The lower-cased line mentions one of spring, server, datasource or jpa. */
  predicate MentionsSpring(line: string) {
    var l := Lower(line);
    Contains(l, "spring") || Contains(l, "server") || Contains(l, "datasource") || Contains(l, "jpa")
  }

  predicate IsSpringLine(line: string, sep: char) {
    MentionsSpring(line) && sep in line
  }

  /** The stripped Spring lines, in line order. Comment lines are not excluded. */
  function SpringProperties(lines: seq<string>, sep: char): (r: seq<string>)
    ensures |r| <= |lines|
    decreases |lines|
  {
    if lines == [] then []
    else
      var l := lines[|lines| - 1];
      SpringProperties(lines[..|lines| - 1], sep) + (if IsSpringLine(l, sep) then [Strip(l)] else [])
  }

  /** A stripped line is listed exactly when some line qualifies and strips to it. */
  lemma SpringPropertiesSpec(lines: seq<string>, sep: char)
    ensures forall x :: x in SpringProperties(lines, sep) <==>
      exists i :: 0 <= i < |lines| && IsSpringLine(lines[i], sep) && Strip(lines[i]) == x
  {
    forall x | x in SpringProperties(lines, sep)
      ensures exists i :: 0 <= i < |lines| && IsSpringLine(lines[i], sep) && Strip(lines[i]) == x
    {
      var i := SpringPropertySource(lines, sep, x);
    }
    forall i | 0 <= i < |lines| && IsSpringLine(lines[i], sep)
      ensures Strip(lines[i]) in SpringProperties(lines, sep)
    {
      SpringPropertyListed(lines, sep, i);
    }
  }

  /** A listed property comes from a qualifying line. */
  lemma {:induction false} SpringPropertySource(lines: seq<string>, sep: char, x: string) returns (i: nat)
    requires x in SpringProperties(lines, sep)
    ensures i < |lines| && IsSpringLine(lines[i], sep) && Strip(lines[i]) == x
    decreases |lines|
  {
    var init := lines[..|lines| - 1];
    if x in SpringProperties(init, sep) {
      i := SpringPropertySource(init, sep, x);
      assert lines[i] == init[i];
    } else {
      i := |lines| - 1;
    }
  }

  /** A qualifying line is listed, stripped. */
  lemma {:induction false} SpringPropertyListed(lines: seq<string>, sep: char, i: nat)
    requires i < |lines| && IsSpringLine(lines[i], sep)
    ensures Strip(lines[i]) in SpringProperties(lines, sep)
    decreases |lines|
  {
    var init := lines[..|lines| - 1];
    if i < |init| {
      SpringPropertyListed(init, sep, i);
      assert init[i] == lines[i];
    }
  }

  /** A listed property keeps its separator: `strip` only removes whitespace. */
  lemma {:induction false} SpringPropertiesKeepSeparator(lines: seq<string>, sep: char)
    requires !IsSpace(sep)
    ensures forall i :: 0 <= i < |SpringProperties(lines, sep)| ==> sep in SpringProperties(lines, sep)[i]
    decreases |lines|
  {
    if lines != [] {
      SpringPropertiesKeepSeparator(lines[..|lines| - 1], sep);
      var l := lines[|lines| - 1];
      if IsSpringLine(l, sep) {
        StripKeeps(l, sep);
      }
    }
  }

  datatype ConfigAnalysis = ConfigAnalysis(
    fileType: string, lines: nat, keyCount: nat, springProperties: seq<string>,
    /** `(tag_count, spring_beans)`, present for XML only. */
    xmlCounts: Option<(nat, nat)>)

  /** The summary starts with the line count and no keys; YAML and properties
      files are then read line by line on their separator, XML gets tag counts and
      any other type keeps the starting summary. */
  method AnalyzeConfigFile(content: string, fileType: string) returns (a: ConfigAnalysis)
    ensures a.fileType == fileType
    ensures a.lines == CountChar(content, '\n') + 1
    ensures a.keyCount <= a.lines && |a.springProperties| <= a.lines
    ensures fileType in [".yml", ".yaml"] ==>
      (a.keyCount == KeyCount(Split(content, '\n'), ':') && a.springProperties == SpringProperties(Split(content, '\n'), ':')
       && |Entries(Split(content, '\n'), ':')| <= a.keyCount)
    ensures fileType == ".properties" ==>
      (a.keyCount == KeyCount(Split(content, '\n'), '=') && a.springProperties == SpringProperties(Split(content, '\n'), '=')
       && |Entries(Split(content, '\n'), '=')| <= a.keyCount)
    ensures fileType !in [".yml", ".yaml", ".properties"] ==> a.keyCount == 0 && a.springProperties == []
    ensures a.xmlCounts.Some? <==> fileType == ".xml"
    ensures a.xmlCounts.Some? ==>
      (a.xmlCounts.value.0 == CountChar(content, '<') && a.xmlCounts.value.1 == Count(content, "<bean")
       && a.xmlCounts.value.1 <= a.xmlCounts.value.0)
  {
    SplitJoin(content, '\n');
    a := ConfigAnalysis(fileType, |Split(content, '\n')|, 0, [], None);
    if fileType in [".yml", ".yaml"] {
      var lines := Split(content, '\n');
      EntriesAtMostKeyCount(lines, ':');
      a := a.(keyCount := KeyCount(lines, ':'), springProperties := SpringProperties(lines, ':'));
    } else if fileType == ".properties" {
      var lines := Split(content, '\n');
      EntriesAtMostKeyCount(lines, '=');
      a := a.(keyCount := KeyCount(lines, '='), springProperties := SpringProperties(lines, '='));
    } else if fileType == ".xml" {
      CountOneChar(content, '<');
      CountAtMostFirstChar(content, "<bean");
      a := a.(xmlCounts := Some((Count(content, "<"), Count(content, "<bean"))));
    }
  }

  // ---------------------------------------------------------------------------
  // Syntax validation
  // ---------------------------------------------------------------------------

  /** As many `{` as `}` and as many `(` as `)`. */
  predicate BracketsBalanced(content: string) {
    CountChar(content, '{') == CountChar(content, '}') && CountChar(content, '(') == CountChar(content, ')')
  }

  datatype SyntaxReport = SyntaxReport(valid: bool, errors: seq<string>)

  /** Brace counts and parenthesis counts compared, braces reported first. */
  method ValidateJavaSyntax(content: string) returns (r: SyntaxReport)
    ensures r.valid <==> BracketsBalanced(content)
    ensures r.valid <==> r.errors == []
    ensures "Mismatched braces" in r.errors <==> CountChar(content, '{') != CountChar(content, '}')
    ensures "Mismatched parentheses" in r.errors <==> CountChar(content, '(') != CountChar(content, ')')
    ensures |r.errors| <= 2 && (|r.errors| == 2 ==> r.errors == ["Mismatched braces", "Mismatched parentheses"])
  {
    CountOneChar(content, '{');
    CountOneChar(content, '}');
    CountOneChar(content, '(');
    CountOneChar(content, ')');
    var errors: seq<string> := [];
    if Count(content, "{") != Count(content, "}") {
      errors := errors + ["Mismatched braces"];
    }
    if Count(content, "(") != Count(content, ")") {
      errors := errors + ["Mismatched parentheses"];
    }
    r := SyntaxReport(|errors| == 0, errors);
  }

  /** Two balanced texts put together are balanced. */
  lemma BalancedConcat(s: string, t: string)
    requires BracketsBalanced(s) && BracketsBalanced(t)
    ensures BracketsBalanced(s + t)
  {
    CountCharAppend(s, t, '{');
    CountCharAppend(s, t, '}');
    CountCharAppend(s, t, '(');
    CountCharAppend(s, t, ')');
  }

}
