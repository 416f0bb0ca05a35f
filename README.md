# MCP Spring context — a Dafny model of its text-processing core

MCP_Spring_context is a Model Context Protocol server that describes Spring Boot
projects to an assistant. The server walks the project, reads its Java sources,
build files and configuration files, and reports on them:

- its classes, methods and Spring components;
- its configuration keys;
- its Javadoc;
- its REST endpoints;
- the frameworks it depends on;
- a directory tree.

Under the file walking sit a few pure text routines. This project models those
routines in Dafny and proves what they compute.

- `Text`: the Python string operations the routines use. These are `strip`,
  `split(c)`, `split()`, `join`, `count`, `replace`, `lower`, `upper`, `in`,
  `rfind` and string ordering. Also here are the greedy runs a regex such as
  `\s*`, `\w*` or `.*` consumes.
- `ConfigText`: the flat key/value line rule. The `.properties` and YAML readers
  of the code analyser and of the project-structure tool share it, and so do the
  key counts of the Java service.
- `CodeAnalyzer` (`code_analyzer.py`). It covers:
  - the class-body brace scanner, a loop with its invariant;
  - parameter and `throws` parsing;
  - the configuration readers;
  - the Spring annotation vocabulary and the component table;
  - the class-annotation capture;
  - the suffix-to-language table.
- `Documentation` (`documentation.py`). It covers:
  - Javadoc cleaning;
  - the `@param`, `@return` and `@throws` scans;
  - the endpoint verb and path;
  - the first-line search;
  - the Spring summary of a file;
  - the parameter parsing of the method summary.
- `JavaService` (`java_service.py`): the Java file summary, the configuration file
  summary and the brace/parenthesis validator.
- `ProjectStructure` (`project_structure.py`): the flat readers, and the
  per-dependency loops that detect Spring Boot, databases, testing frameworks and
  other frameworks.
- `DirectoryTree` (`project_structure.py`): the depth-bounded tree builder, over
  an abstract file tree.

Inputs the original gets from the outside world are parameters here:

- The text of a file is a `string`.
- A regular-expression match that the model does not re-implement is given by its
  capture groups: `MethodMatch`, `EndpointMatch`, and group 1 of the
  class-declaration pattern. That group repeats, so it holds only the last
  annotation before the class.
- The dependency records of the build analysis are a `seq<Dependency>`.
- The Java sources scanned for `@SpringBootApplication` are a `seq<string>`.
- The file system is an `FsEntry` tree. In it a file's size may be missing and a
  directory may refuse to be listed.

Where the code loops and updates state, the model is a `method` with a loop. The
method is proved equal to a specification function, and the properties are proved
about that function. Examples are the brace scanner, the parameter loop, the
configuration readers, Javadoc cleaning, the endpoint loop, the first-line search,
the Spring summary and the dependency loops.

Three behaviours follow the code rather than the documentation or the tests:

- The repository's YAML test expects `server` to map to `8080`. Nested YAML is not
  rebuilt, so the line `server:` maps `server` to the empty string
  (`ConfigText.NestedYamlFlattens`).
- When a class body's braces never close, the extracted body is the rest of the
  text without its last character (`CodeAnalyzer.ExtractClassContent`).
- The `method=` pattern of a request mapping takes the first quoted literal after
  `method =`. Spring's enum form `method = RequestMethod.POST, value = "/x"` has
  no quoted verb, so the verb becomes the upper-cased path `/X`
  (`Documentation.RequestMethodEnumThenPath`). With `value` written first the
  verb is GET, because no quoted literal follows `method =`.

## Model

| member | source | states |
|---|---|---|
| CodeAnalyzer.HeaderEnd | mcp_server/tools/code_analyzer.py:186 | a header read at `p` starts with `class` and whitespace and ends just past a `{` inside the text |
| CodeAnalyzer.FindHeader | mcp_server/tools/code_analyzer.py:186 | the search finds the leftmost position that reads a header, or None exactly when no position from `q` on reads one |
| CodeAnalyzer.BodyStart | mcp_server/tools/code_analyzer.py:186-190 | the body starts right after a `{` of the text |
| CodeAnalyzer.DepthStep | mcp_server/tools/code_analyzer.py:195-198 | one more scanned character raises the depth on `{`, lowers it on `}` and leaves it otherwise |
| CodeAnalyzer.ScanBody | mcp_server/tools/code_analyzer.py:190-199 | the loop stops at the first index where the depth 1 + #`{` − #`}` of the scanned text is 0, or at the end of the text; the depth is positive before that |
| CodeAnalyzer.ExtractClassContent | mcp_server/tools/code_analyzer.py:183-201 | no header gives ""; otherwise the body is the text right after the `{`, and either a `}` closes it at depth 0 with every prefix balanced or non-negative, or the braces never close and it is the rest of the text minus its last character |
| CodeAnalyzer.ScanClosed | mcp_server/tools/code_analyzer.py:194-201 | a scan that stops at depth 0 stopped just past the closing `}` of a closed body |
| CodeAnalyzer.ScanOpen | mcp_server/tools/code_analyzer.py:194-201 | a scan that stops with a positive depth reached the end of the text, and the braces never close |
| CodeAnalyzer.ClosesUnique | mcp_server/tools/code_analyzer.py:194-199 | at most one body closes from a given start: the scan stops at the first depth-0 brace |
| CodeAnalyzer.ClosedDepth | mcp_server/tools/code_analyzer.py:194-201 | right after a closed body the depth is 0 |
| CodeAnalyzer.OpenInside | mcp_server/tools/code_analyzer.py:194-199 | inside a closed body the depth stays positive |
| CodeAnalyzer.ClosesExcludesNeverCloses | mcp_server/tools/code_analyzer.py:194-201 | a closed body and a never-closing scan exclude each other |
| CodeAnalyzer.NoClassNoHeader | mcp_server/tools/code_analyzer.py:186-188 | text without the word `class` has no header, so no body |
| CodeAnalyzer.ParamOf | mcp_server/tools/code_analyzer.py:219-226 | a piece gives a parameter exactly when its stripped text has at least two whitespace tokens; the name is one token and the type is tokens joined by single spaces |
| CodeAnalyzer.ParamsOf | mcp_server/tools/code_analyzer.py:219-226 | no more parameters than comma pieces, each well formed |
| CodeAnalyzer.ParamList | mcp_server/tools/code_analyzer.py:216-226 | at most one parameter per comma piece, each with a one-token name and a single-spaced type |
| CodeAnalyzer.ParseParameters | mcp_server/tools/code_analyzer.py:216-226 | the loop over the comma pieces yields the parameter list of the captured text |
| CodeAnalyzer.ParseParameter | mcp_server/tools/code_analyzer.py:220-226 | one loop step: blank pieces and single tokens give nothing, otherwise last token as name and the rest joined as type |
| CodeAnalyzer.ParamsOfBlank | mcp_server/tools/code_analyzer.py:220-221 | whitespace-only pieces give no parameters |
| CodeAnalyzer.ParamListGuard | mcp_server/tools/code_analyzer.py:218-226 | the `params.strip()` guard does not change the result, and blank or whitespace-only text gives no parameters |
| CodeAnalyzer.ParamOfRender | mcp_server/tools/code_analyzer.py:222-226 | a well-formed parameter written as `type name` parses back to itself |
| CodeAnalyzer.ParamsOfRendered | mcp_server/tools/code_analyzer.py:219-226 | a list of rendered well-formed parameters parses back to the list |
| CodeAnalyzer.ParamListRoundTrip | mcp_server/tools/code_analyzer.py:216-226 | comma-free well-formed parameters joined with commas round-trip through the parser |
| CodeAnalyzer.ThrowsList | mcp_server/tools/code_analyzer.py:232 | an absent clause gives no names; a present one gives one name per comma piece |
| CodeAnalyzer.ThrowsListTrimmed | mcp_server/tools/code_analyzer.py:232 | each exception name has no comma and no surrounding whitespace |
| CodeAnalyzer.ThrowsListRoundTrip | mcp_server/tools/code_analyzer.py:232 | unpadded comma-free names joined with commas come back unchanged |
| CodeAnalyzer.ExtractJavaMethods | mcp_server/tools/code_analyzer.py:210-233 | one method per header match, in match order, each with its parsed parameters and throws list |
| CodeAnalyzer.ExtractProperties | mcp_server/tools/code_analyzer.py:335-345 | the dictionary is the line rule on `=` over the `\n`-separated lines, in order |
| CodeAnalyzer.ExtractYamlConfig | mcp_server/tools/code_analyzer.py:323-333 | the dictionary is the line rule on `:` over the `\n`-separated lines, in order |
| CodeAnalyzer.ExtractSpringAnnotations | mcp_server/tools/code_analyzer.py:237-245 | exactly the vocabulary members that occur in the text |
| CodeAnalyzer.AnnotationsGrow | mcp_server/tools/code_analyzer.py:241-243 | appending text keeps every found annotation |
| CodeAnalyzer.EndpointMethods | mcp_server/tools/code_analyzer.py:279 | a method is kept exactly when its name contains get, post, put or delete, and the kept methods are a subsequence of the list, in its order |
| CodeAnalyzer.ComponentLabel | mcp_server/tools/code_analyzer.py:264-270 | an annotation has a label exactly when it is one of the five `@`-prefixed keys, and the label is Controller, Service, Repository or Component |
| CodeAnalyzer.ClassComponents | mcp_server/tools/code_analyzer.py:273-280 | a class gives at most one entry per annotation, each labelled with one of the four kinds |
| CodeAnalyzer.Components | mcp_server/tools/code_analyzer.py:272-282 | every entry is labelled with one of the four kinds |
| CodeAnalyzer.IdentifySpringComponents | mcp_server/tools/code_analyzer.py:260-282 | the nested loop yields the component entries of the classes in order |
| CodeAnalyzer.ClassComponentsSpec | mcp_server/tools/code_analyzer.py:272-280 | one entry per annotation in the table, each naming the class, labelled from the table, carrying the class's annotations and its request-handler methods |
| CodeAnalyzer.ComponentsAppend | mcp_server/tools/code_analyzer.py:272-280 | entries come in class order |
| CodeAnalyzer.ClassComponentsAppend | mcp_server/tools/code_analyzer.py:273-280 | within a class, entries come in annotation order |
| CodeAnalyzer.BareNamesNoComponents | mcp_server/tools/code_analyzer.py:264-274 | annotations without a leading `@` never match the table |
| CodeAnalyzer.AtNames | mcp_server/tools/code_analyzer.py:255 | `re.findall(r'@([^\s(]+)')` gives non-empty names |
| CodeAnalyzer.AtNamesBare | mcp_server/tools/code_analyzer.py:255 | unless the text holds `@@`, no captured name starts with `@` |
| CodeAnalyzer.RestControllerCaptured | mcp_server/tools/code_analyzer.py:255 | `@RestController` in front of a class is captured as `RestController` |
| CodeAnalyzer.AtNamesSingle | mcp_server/tools/code_analyzer.py:255 | one annotation of letters on a line is captured without its `@` |
| CodeAnalyzer.ExtractedAnnotationsNeverClassify | mcp_server/tools/code_analyzer.py:255-274 | as written, captured class annotations never match the `@`-keyed table, so no class becomes a component |
| CodeAnalyzer.TaggedNames | mcp_server/tools/code_analyzer.py:255 | every name gets its `@` back |
| CodeAnalyzer.ClassAnnotations | mcp_server/tools/code_analyzer.py:254-256 | corrected capture: one `@`-prefixed annotation per captured name |
| CodeAnalyzer.TaggedRestControllerIsController | mcp_server/tools/code_analyzer.py:264-280 | with the `@` put back, a `@RestController` class is one Controller entry |
| CodeAnalyzer.CorrectedRestControllerClassifies | mcp_server/tools/code_analyzer.py:264-280 | with the corrected capture, a class after `@RestController` is listed as a Controller with its request-handler methods |
| CodeAnalyzer.Suffix | mcp_server/tools/code_analyzer.py:468 | a suffix is empty or a dot followed by at least one character |
| CodeAnalyzer.SuffixOf | mcp_server/tools/code_analyzer.py:468 | the suffix of `stem.ext` is `.ext` for a non-empty stem and a dot-free extension |
| CodeAnalyzer.NoSuffixUnknown | mcp_server/tools/code_analyzer.py:468-481 | a name without a suffix has language "unknown" |
| CodeAnalyzer.JavaFile | mcp_server/tools/code_analyzer.py:466-481 | `.java` and `.JAVA` files are Java |
| CodeAnalyzer.LanguageOfSuffix | mcp_server/tools/code_analyzer.py:470-481 | the result is one of the eight languages or "unknown", and "unknown" exactly when the suffix is not one of the eight keys |
| CodeAnalyzer.DetectLanguage | mcp_server/tools/code_analyzer.py:466-481 | a name without a suffix is "unknown", and the language is known exactly when the lower-cased suffix is one of the eight keys |
| CodeAnalyzer.DetectLanguageUpper | mcp_server/tools/code_analyzer.py:468 | upper-casing the file name does not change its language |
| ConfigText.KeyValueAtFirst | mcp_server/tools/code_analyzer.py:342-343 | key and value are the stripped text on either side of the first separator, whatever the value holds |
| ConfigText.KeyCount | mcp_server/services/java_service.py:60 | no more key lines than lines |
| ConfigText.ParseFlat | mcp_server/tools/code_analyzer.py:337-345 | the reader loop builds the dictionary of the line rule |
| ConfigText.Entries | mcp_server/tools/code_analyzer.py:337-345 | every key and every value of the dictionary is stripped |
| ConfigText.EntriesKeys | mcp_server/tools/code_analyzer.py:340-343 | a key is present exactly when a non-comment line holding the separator names it |
| ConfigText.EntriesLastWins | mcp_server/tools/code_analyzer.py:340-343 | a key's value comes from its last defining line |
| ConfigText.EntriesAtMostKeyCount | mcp_server/services/java_service.py:58-60 | there are no more distinct keys than key lines |
| ConfigText.NestedYamlFlattens | mcp_server/tools/project_structure.py:589-597 | `server:` with an indented `port: 8080` maps `server` to "" and `port` to "8080" |
| ConfigText.PaddedEntry | mcp_server/tools/project_structure.py:594-596 | a padded `key: value` line defines that key with that value |
| Documentation.CleanLine | mcp_server/tools/documentation.py:223 | the cleaned line is a suffix of the line |
| Documentation.CleanedLines | mcp_server/tools/documentation.py:219-226 | no more kept lines than lines, none of them empty |
| Documentation.CleanJavadoc | mcp_server/tools/documentation.py:216-227 | the loop joins, with single spaces, the lines that are non-blank after removing the marker, each stripped |
| Documentation.CleanedLinesUnpadded | mcp_server/tools/documentation.py:224-225 | every kept line is non-empty and unpadded |
| Documentation.CleanJavadocUnpadded | mcp_server/tools/documentation.py:224-227 | the cleaned comment has no leading or trailing whitespace, and is empty exactly when no line keeps text |
| Documentation.CleanStarLine | mcp_server/tools/documentation.py:223-225 | an indented `* text` line cleans to `text`, stripped |
| Documentation.BlankLinesDropped | mcp_server/tools/documentation.py:224 | blank lines leave nothing |
| Documentation.NamedTagAt | mcp_server/tools/documentation.py:231 | a match at `p` ends after `p` and inside the text |
| Documentation.NamedTags | mcp_server/tools/documentation.py:231 | `findall` from `p` gives at most one entry per remaining character |
| Documentation.JavadocParams | mcp_server/tools/documentation.py:229-232 | at most one `@param` entry per character of the comment, each with a non-empty one-line name |
| Documentation.JavadocThrows | mcp_server/tools/documentation.py:239-242 | at most one `@throws` entry per character of the comment, each with a non-empty one-line name |
| Documentation.Stripped | mcp_server/tools/documentation.py:232 | each entry keeps its name and has its description stripped |
| Documentation.NamedTagsRaw | mcp_server/tools/documentation.py:231 | each captured name is a non-empty word and each description one line |
| Documentation.TagEntriesWellFormed | mcp_server/tools/documentation.py:229-242 | every `@param` and `@throws` entry has a word name and a stripped one-line description |
| Documentation.NamedTagsAbsent | mcp_server/tools/documentation.py:229-242 | without the tag in the comment there are no entries |
| Documentation.NamedTagLine | mcp_server/tools/documentation.py:229-232 | a line `tag name description` gives that name and, stripped, that description |
| Documentation.FindReturn | mcp_server/tools/documentation.py:236 | the `.*` capture never holds a line break |
| Documentation.JavadocReturn | mcp_server/tools/documentation.py:234-237 | a description exactly when the search finds `@return`, and then it is one line, stripped |
| Documentation.FindReturnNone | mcp_server/tools/documentation.py:236 | the search fails exactly when no position reads `@return` and whitespace |
| Documentation.FindReturnFirst | mcp_server/tools/documentation.py:236 | the search returns the leftmost `@return` capture |
| Documentation.JavadocReturnAbsent | mcp_server/tools/documentation.py:234-237 | no `@return` gives None |
| Documentation.JavadocReturnLine | mcp_server/tools/documentation.py:234-237 | `@return desc` gives `desc` stripped |
| Documentation.QuotedAt | mcp_server/tools/documentation.py:257 | a quoted literal is non-empty and free of quotes |
| Documentation.FirstQuotedSpec | mcp_server/tools/documentation.py:257 | the search gives the leftmost quoted literal, or None exactly when there is none |
| Documentation.EndpointPath | mcp_server/tools/documentation.py:257-258 | the path is quote-free, and empty exactly when the annotation holds no quoted literal |
| Documentation.EndpointPathOf | mcp_server/tools/documentation.py:257-258 | a literal after quote-free text is the endpoint path |
| Documentation.QuoteBeforeBrace | mcp_server/tools/documentation.py:272 | the lazy `[^{]*?` match yields a non-empty quote-free value |
| Documentation.MethodValue | mcp_server/tools/documentation.py:272 | a found `method=` value is non-empty and quote-free |
| Documentation.HttpVerb | mcp_server/tools/documentation.py:260-273 | the verb is never empty; it is POST, PUT, DELETE, PATCH or GET, or else the upper-cased `method=` value |
| Documentation.HttpVerbCases | mcp_server/tools/documentation.py:260-273 | each link of the chain: POST if `@PostMapping` occurs; else PUT if `@PutMapping` occurs; else DELETE, then PATCH, likewise; else for `@RequestMapping` the upper-cased `method=` value, or GET; GET when no mapping name occurs |
| Documentation.PostMappingWins | mcp_server/tools/documentation.py:262-263 | `@PostMapping` anywhere gives POST, whatever follows |
| Documentation.MethodValueOf | mcp_server/tools/documentation.py:272 | after text without an `m`, `method = `, then quote-free and brace-free text, then `"v"`, the value is `v` |
| Documentation.PutMappingVerb | mcp_server/tools/documentation.py:264-265 | a lone `@PutMapping` gives PUT |
| Documentation.DeleteMappingVerb | mcp_server/tools/documentation.py:266-267 | a lone `@DeleteMapping` gives DELETE |
| Documentation.PatchMappingVerb | mcp_server/tools/documentation.py:268-269 | a lone `@PatchMapping` gives PATCH |
| Documentation.GetMappingVerb | mcp_server/tools/documentation.py:260-273 | a lone `@GetMapping` is matched by no link and stays GET |
| Documentation.RequestMappingVerb | mcp_server/tools/documentation.py:270-273 | a lone `@RequestMapping` takes its upper-cased `method=` value, or GET |
| Documentation.RequestMappingMethodVerb | mcp_server/tools/documentation.py:270-273 | `@RequestMapping(method = ... "v" ...)` gives `v` upper-cased |
| Documentation.DeleteMappingEndpoint | mcp_server/tools/documentation.py:257-267 | `@DeleteMapping("path")` is a DELETE on that path, as in the repository's `@DeleteMapping("/users/{id}")` case |
| Documentation.RequestMethodEnumThenPath | mcp_server/tools/documentation.py:270-273 | `@RequestMapping(method = RequestMethod.X, value = "path")` takes the upper-cased path as its verb |
| Documentation.ExtractSpringEndpoints | mcp_server/tools/documentation.py:244-283 | one endpoint per match, in order, with its verb, path, name, return type and stripped annotation |
| Documentation.FindLineNumber | mcp_server/tools/documentation.py:285-291 | 0 exactly when no line holds the text; otherwise the 1-based number of the first line holding it |
| Documentation.LineNumberBound | mcp_server/tools/documentation.py:287-291 | the line number is at most the number of line breaks plus one |
| Documentation.ExtractSpringInfo | mcp_server/tools/documentation.py:369-404 | the annotations are the occurring list members in list order; the file is a component exactly when there is one; the type is the last label found; the endpoints are those of the matches |
| Documentation.RecordInfo | mcp_server/tools/documentation.py:385-399 | one loop step records an occurring annotation, marks the file as a component and keeps the type equal to the last label found |
| Documentation.ConfigurationWins | mcp_server/tools/documentation.py:384-399 | `@Configuration` decides the type whenever present |
| Documentation.UnlabelledOnly | mcp_server/tools/documentation.py:389-399 | only `@Autowired` or `@RequestMapping` leaves the type None |
| Documentation.LastLabelNone | mcp_server/tools/documentation.py:389-399 | there is no type exactly when no found annotation has a label |
| Documentation.LastLabelLast | mcp_server/tools/documentation.py:389-399 | a found type is the label of the last labelled annotation |
| Documentation.MethodInfoParams | mcp_server/tools/documentation.py:344-357 | stripping first then parsing gives the code analyser's parameter list |
| Documentation.StripSameParams | mcp_server/tools/documentation.py:344-350 | stripping the captured text leaves the parsed parameters unchanged |
| Documentation.PaddedPieces | mcp_server/tools/documentation.py:344-350 | padding a comma list only pads its first and last pieces |
| Documentation.SameStripSameParams | mcp_server/tools/documentation.py:350-357 | pieces that strip alike give the same parameters |
| JavaService.AnalyzeJavaFile | mcp_server/services/java_service.py:24-39 | the flags and counts are those of the text, and the annotations are the occurring vocabulary members in vocabulary order |
| JavaService.JavaAnnotationsFound | mcp_server/services/java_service.py:35-37 | an annotation is listed exactly when it is in the vocabulary and occurs, in vocabulary order |
| JavaService.JavaAnnotationsWithinAnalyzer | mcp_server/services/java_service.py:18-22 | every annotation the service reports the code analyser reports too |
| JavaService.SpringProperties | mcp_server/services/java_service.py:54-57 | no more properties than lines |
| JavaService.SpringPropertiesSpec | mcp_server/services/java_service.py:54-57 | a stripped line is listed exactly when some line mentions a Spring key and holds the separator |
| JavaService.SpringPropertiesKeepSeparator | mcp_server/services/java_service.py:54-57 | every listed property still holds its separator |
| JavaService.AnalyzeConfigFile | mcp_server/services/java_service.py:41-70 | lines = #`\n` + 1. For YAML and `.properties`: the key count of the line rule, at least the distinct keys, and the Spring lines. Other types: 0 keys and no lines. Tag counts only for XML: tags = #`<` and beans = #`<bean`, so beans ≤ tags |
| JavaService.ValidateJavaSyntax | mcp_server/services/java_service.py:102-117 | valid exactly when braces and parentheses balance; at most two errors, braces first |
| JavaService.BalancedConcat | mcp_server/services/java_service.py:107-112 | two valid texts put together are valid |
| ProjectStructure.ParseProperties | mcp_server/tools/project_structure.py:580-587 | the dictionary is the line rule on `=`, last writer wins |
| ProjectStructure.ParseYaml | mcp_server/tools/project_structure.py:589-597 | the dictionary is the line rule on `:`, each line on its own |
| ProjectStructure.ArtifactKey | mcp_server/tools/project_structure.py:424-430 | a record is skipped exactly when it has neither an artifact id nor an identifier |
| ProjectStructure.Labels | mcp_server/tools/project_structure.py:519-540 | at most one label per record |
| ProjectStructure.LabelsMembers | mcp_server/tools/project_structure.py:530-542 | a label is listed exactly when some record gets it |
| ProjectStructure.LabelsWithin | mcp_server/tools/project_structure.py:530-539 | only the chain's labels appear |
| ProjectStructure.DetectSpringBoot | mcp_server/tools/project_structure.py:410-462 | detected exactly when some key holds spring-boot or a source holds `@SpringBootApplication`; version, starters, actuator and security as the record loop sets them |
| ProjectStructure.StarterName | mcp_server/tools/project_structure.py:437-439 | `spring-boot-starter-<name>` is listed as the lower-cased `<name>` |
| ProjectStructure.WebStarter | mcp_server/tools/project_structure.py:437-439 | `spring-boot-starter-web` is listed as `web` |
| ProjectStructure.BootVersionSource | mcp_server/tools/project_structure.py:447-449 | the version is "unknown" or the non-empty version of a Spring Boot record, and "unknown" when none has one |
| ProjectStructure.DetectDatabase | mcp_server/tools/project_structure.py:464-511 | jpa, jdbc, technologies and nosql as the loop sets them; detected exactly when jpa or jdbc or a NoSQL key |
| ProjectStructure.RecordDatabase | mcp_server/tools/project_structure.py:487-509 | one loop step sets the flags and appends the technology and NoSQL key of one record |
| ProjectStructure.DatabaseDetected | mcp_server/tools/project_structure.py:487-509 | something is detected exactly when a flag is set or a NoSQL key is listed |
| ProjectStructure.TechnologyPriority | mcp_server/tools/project_structure.py:497-504 | MySQL beats PostgreSQL, which beats Oracle, which beats SQL Server; no label without a driver name |
| ProjectStructure.TechnologiesWithin | mcp_server/tools/project_structure.py:497-504 | every technology label is one of the four |
| ProjectStructure.DetectTestingFrameworks | mcp_server/tools/project_structure.py:513-542 | a framework is listed exactly when some record gets its label, and all labels are testing labels |
| ProjectStructure.DetectOtherFrameworks | mcp_server/tools/project_structure.py:544-573 | a framework is listed exactly when some record gets its label, and all labels are other-framework labels |
| ProjectStructure.TestingPriority | mcp_server/tools/project_structure.py:530-539 | JUnit, TestNG, Mockito, Spring Test, TestContainers, first match wins |
| ProjectStructure.OtherPriority | mcp_server/tools/project_structure.py:561-570 | a Boot artifact is never Spring Framework; Spring without Boot always is |
| ProjectStructure.FrameworkLabelsBounded | mcp_server/tools/project_structure.py:541-542 | at most five distinct labels of each kind |
| DirectoryTree.KeyLeTotal | mcp_server/tools/project_structure.py:144 | any two entries compare under the sort key |
| DirectoryTree.KeyLeTrans | mcp_server/tools/project_structure.py:144 | the sort key order is transitive |
| DirectoryTree.Insert | mcp_server/tools/project_structure.py:144 | insertion adds exactly the entry |
| DirectoryTree.SortEntries | mcp_server/tools/project_structure.py:144 | the sorted listing is a permutation of the listing |
| DirectoryTree.InsertSorted | mcp_server/tools/project_structure.py:144 | insertion keeps a listing sorted |
| DirectoryTree.SortEntriesSorted | mcp_server/tools/project_structure.py:144 | the listing is sorted directories first, then by lower-cased name |
| DirectoryTree.Built | mcp_server/tools/project_structure.py:146-148 | dropping unbuilt children never adds nodes |
| DirectoryTree.BuildKeepsEntry | mcp_server/tools/project_structure.py:129-134 | a node keeps the entry's name, its path and its kind |
| DirectoryTree.BuildNode | mcp_server/tools/project_structure.py:126-150 | None exactly above the depth bound; files carry their size (0 when unreadable) only when sizes are asked for; a refused listing is flagged and has no children |
| DirectoryTree.ChildrenOfDirectory | mcp_server/tools/project_structure.py:142-148 | below the bound, one child per entry in sorted order; at the bound, none |
| DirectoryTree.ChildNode | mcp_server/tools/project_structure.py:144-148 | below the bound the i-th child is built from the i-th sorted entry, one of the directory's entries |
| DirectoryTree.BuildWithinDepth | mcp_server/tools/project_structure.py:125-148 | no node lies deeper than the bound |
| DirectoryTree.ChildrenOrdered | mcp_server/tools/project_structure.py:144-148 | a directory's children are directories first, then by lower-cased name |
| DirectoryTree.BuildOrdered | mcp_server/tools/project_structure.py:129-148 | every directory of the tree has ordered children whose paths extend its own |
| DirectoryTree.BuildTreeRoot | mcp_server/tools/project_structure.py:154 | a negative bound gives no tree; otherwise the root has path "." and its own name |
| Text.StripSpec | mcp_server/tools/code_analyzer.py:219 | `strip` removes whitespace on both sides only, and the result is unpadded |
| Text.SplitJoin | mcp_server/services/java_service.py:45 | `split` pieces rejoin to the text, and there is one more piece than separators |
| Text.JoinSplit | mcp_server/tools/code_analyzer.py:219 | separator-free pieces joined and split come back |
| Text.SplitWsJoin | mcp_server/tools/code_analyzer.py:222-225 | `split()` of a single-space join of tokens gives the tokens back |
| Text.Present | mcp_server/services/java_service.py:35-37 | every kept member occurs in the text |
| Text.PresentMembers | mcp_server/services/java_service.py:35-37 | the vocabulary filter keeps exactly the occurring members |
| Text.PresentInOrder | mcp_server/services/java_service.py:35-37 | the vocabulary filter keeps vocabulary order |
| Text.CountFits | mcp_server/services/java_service.py:29-31 | non-overlapping occurrences fit in the text |
| Text.CountOneChar | mcp_server/services/java_service.py:107 | `count` of a one-character pattern is the character count |
| Text.CountAtMostFirstChar | mcp_server/services/java_service.py:67-68 | `<bean` occurs no more often than `<` |
| Text.ContainsAt | mcp_server/tools/code_analyzer.py:242 | `in` means an occurrence at some index |
| Text.ReplaceLeading | mcp_server/tools/project_structure.py:438 | `replace` removes a leading occurrence and goes on after it |
| Text.LexLeTrans | mcp_server/tools/project_structure.py:144 | Python string order is transitive |

## Left out

- File reading, directory listing, `stat`, `async`/`await`, logging and every `except Exception` path that returns an error dictionary. File contents, dependency records, Java sources and the file tree are parameters instead.
- Regular-expression matching in general. The model takes capture groups as inputs for the method-header, endpoint and class-declaration patterns. `_extract_classes` is regex-driven, and only the body scanner and the method extractor it calls are modelled. The literal scans are written out and modelled: the class header, `@param`/`@throws`/`@return`, the first quoted literal, `method=` and `@name` captures.
- Unicode: whitespace, `\w` and case mapping are modelled on the ASCII range only.
- Dictionary insertion order: configuration readers return a `map`.
- CodeAnalyzer.ExtractSpringAnnotations: a set, because the source iterates a Python set whose order is not fixed.
- ProjectStructure.DetectTestingFrameworks and ProjectStructure.DetectOtherFrameworks: sets, because `list(set(...))` has no fixed order.
- DirectoryTree.SortEntries: proved sorted and a permutation; the stability of Python's `sorted` is not proved.
- `pom.xml` parsing with ElementTree and `build.gradle` scanning: they produce the dependency records, which are inputs here. The `str(dep)` branch of the dependency loops is not modelled, since the build analysis yields only dictionaries.
- The code and Spring ratios, which are floating point.
- The MCP server registration, the file service, the file manager, the filesystem adapter and the test runner.
- CodeAnalyzer.AtNames: its input is group 1 of the class-declaration pattern, which repeats. So it holds only the last annotation, and it is None, read as "", whenever `public`, `static` or any modifier other than `abstract` or `final` stands between the annotations and `class`. The model takes that group as given and does not decide when the pattern matches.
- DirectoryTree.FsEntry: only files and directories. The source types anything else, such as a broken link or a socket, as "file", sorts it among the directories because `is_file()` is false, and gives it no size. So DirectoryTree.ChildrenOrdered's directories-first order holds for the two modelled kinds only.
- The annotation lists of `_extract_methods_info` and the class and field summaries of the documentation tool, which are regex-only; only its parameter parsing is modelled.

## Findings

| source | as written | input that shows it | evidently intended | confidence | as-written member | corrected member |
|---|---|---|---|---|---|---|
| mcp_server/tools/code_analyzer.py:255-274 | class annotations are captured without `@`, but the component table is keyed with `@` | `@RestController\nclass C`, whose group 1 is `@RestController\n` | `C` is listed as a Controller component; the corrected capture puts back only the missing `@`, and still sees only the last annotation and nothing after `public` | not executed | CodeAnalyzer.ExtractedAnnotationsNeverClassify | CodeAnalyzer.CorrectedRestControllerClassifies |
