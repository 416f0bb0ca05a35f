/** The project-structure tool's text rules: the flat properties and YAML
    readers, and the per-dependency classification loops that detect Spring Boot,
    databases, testing frameworks and other frameworks. Reading the build files
    and walking the project tree are outside this module; the loops take the
    dependency records the build analysis produces. */
module ProjectStructure {
  import opened Text
  import opened ConfigText

  // ---------------------------------------------------------------------------
  // Flat readers
  // ---------------------------------------------------------------------------

  /** `_parse_properties`: key lines split at the first `=`. */
  method ParseProperties(content: string) returns (properties: map<string, string>)
    ensures properties == Entries(Split(content, '\n'), '=')
  {
    properties := ParseFlat(content, '=');
  }

  /** `_parse_yaml`: key lines split at the first `:`, each line on its own. */
  method ParseYaml(content: string) returns (yaml: map<string, string>)
    ensures yaml == Entries(Split(content, '\n'), ':')
  {
    yaml := ParseFlat(content, ':');
  }

  // ---------------------------------------------------------------------------
  // Dependencies
  // ---------------------------------------------------------------------------

  /** A dependency record of the build analysis: Maven records carry an artifact
      id and a possibly missing version, Gradle records an identifier. */
  datatype Dependency = Dependency(artifactId: Option<string>, identifier: Option<string>, version: Option<string>)

  /** The lower-cased artifact id, else the lower-cased identifier; a record with
      neither is skipped. */
  function ArtifactKey(d: Dependency): (k: Option<string>)
    ensures k.Some? <==> d.artifactId.Some? || d.identifier.Some?
  {
    if d.artifactId.Some? then Some(Lower(d.artifactId.value))
    else if d.identifier.Some? then Some(Lower(d.identifier.value))
    else None
  }

  /** The record has a key and the key contains `term`. */
  predicate KeyHas(d: Dependency, term: string) {
    ArtifactKey(d).Some? && Contains(ArtifactKey(d).value, term)
  }

  /** Some record satisfies `p`. */
  predicate AnyDep(deps: seq<Dependency>, p: Dependency -> bool) {
    exists i :: 0 <= i < |deps| && p(deps[i])
  }

  lemma AnyDepSnoc(deps: seq<Dependency>, i: nat, p: Dependency -> bool)
    requires i < |deps|
    ensures AnyDep(deps[..i + 1], p) <==> AnyDep(deps[..i], p) || p(deps[i])
  {
    if AnyDep(deps[..i + 1], p) && !p(deps[i]) {
      var k :| 0 <= k < i + 1 && p(deps[..i + 1][k]);
      assert deps[..i][k] == deps[k];
    }
    if AnyDep(deps[..i], p) {
      var k :| 0 <= k < i && p(deps[..i][k]);
      assert deps[..i + 1][k] == deps[k];
    }
    if p(deps[i]) {
      assert deps[..i + 1][i] == deps[i];
    }
  }

  /** The labels a classification chain (an `if`/`elif` test sequence on the
      lower-cased key, first match wins) gives the records' keys, in record
      order; a record without a key or without a label adds nothing. */
  function Labels(deps: seq<Dependency>, chain: string -> Option<string>): (r: seq<string>)
    ensures |r| <= |deps|
    decreases |deps|
  {
    if deps == [] then []
    else
      var k := ArtifactKey(deps[|deps| - 1]);
      Labels(deps[..|deps| - 1], chain) + (if k.Some? && chain(k.value).Some? then [chain(k.value).value] else [])
  }

  /** The record gets the label `x` from the chain. */
  predicate Labelled(d: Dependency, chain: string -> Option<string>, x: string) {
    ArtifactKey(d).Some? && chain(ArtifactKey(d).value) == Some(x)
  }

  /** A label is listed exactly when some record gets it. */
  lemma {:induction false} LabelsMembers(deps: seq<Dependency>, chain: string -> Option<string>)
    ensures forall x :: x in Labels(deps, chain) <==> exists i :: 0 <= i < |deps| && Labelled(deps[i], chain, x)
    decreases |deps|
  {
    if deps != [] {
      var init := deps[..|deps| - 1];
      LabelsMembers(init, chain);
      forall x | x in Labels(deps, chain)
        ensures exists i :: 0 <= i < |deps| && Labelled(deps[i], chain, x)
      {
        if x in Labels(init, chain) {
          var i :| 0 <= i < |init| && Labelled(init[i], chain, x);
          assert deps[i] == init[i];
        } else {
          assert Labelled(deps[|deps| - 1], chain, x);
        }
      }
      forall x | exists i :: 0 <= i < |deps| && Labelled(deps[i], chain, x)
        ensures x in Labels(deps, chain)
      {
        var i :| 0 <= i < |deps| && Labelled(deps[i], chain, x);
        if i < |init| {
          assert init[i] == deps[i];
        }
      }
    }
  }

  /** A chain whose labels lie in `universe` lists only those. */
  lemma LabelsWithin(deps: seq<Dependency>, chain: string -> Option<string>, universe: set<string>)
    requires forall k :: chain(k).Some? ==> chain(k).value in universe
    ensures forall x :: x in Labels(deps, chain) ==> x in universe
  {
    LabelsMembers(deps, chain);
  }

  /** One more record adds its label, if any, at the end. */
  lemma LabelsSnoc(deps: seq<Dependency>, i: nat, chain: string -> Option<string>)
    requires i < |deps|
    ensures var k := ArtifactKey(deps[i]);
      Labels(deps[..i + 1], chain) == Labels(deps[..i], chain) + (if k.Some? && chain(k.value).Some? then [chain(k.value).value] else [])
  {
    assert deps[..i + 1][..i] == deps[..i];
  }

  // ---------------------------------------------------------------------------
  // Spring Boot
  // ---------------------------------------------------------------------------

  const StarterPrefix: string := "spring-boot-starter-"

  datatype SpringBootInfo = SpringBootInfo(detected: bool, version: string, starters: seq<string>, actuator: bool, security: bool)

  predicate IsBoot(d: Dependency) { KeyHas(d, "spring-boot") }
  predicate IsActuator(d: Dependency) { KeyHas(d, "spring-boot") && KeyHas(d, "starter-actuator") }
  predicate IsSecurity(d: Dependency) { KeyHas(d, "spring-boot") && KeyHas(d, "starter-security") }

  /** A Spring Boot record with a non-empty version. */
  predicate BootVersioned(d: Dependency) {
    KeyHas(d, "spring-boot") && d.version.Some? && d.version.value != []
  }

  /** A Spring Boot starter key gives the key with every prefix occurrence removed. */
  function StarterOf(k: string): Option<string> {
    if Contains(k, "spring-boot") && Contains(k, StarterPrefix) then Some(Replace(k, StarterPrefix, "")) else None
  }

  /** The version of the last Spring Boot record that has one, "unknown" without any. */
  function BootVersion(deps: seq<Dependency>): string
    decreases |deps|
  {
    if deps == [] then "unknown"
    else
      var d := deps[|deps| - 1];
      if BootVersioned(d) then d.version.value else BootVersion(deps[..|deps| - 1])
  }

  /** The record loop, then the scan of the Java sources for the application
      annotation (a source that cannot be read is not in `javaSources`). */
  method DetectSpringBoot(deps: seq<Dependency>, javaSources: seq<string>) returns (info: SpringBootInfo)
    ensures info.detected <==> (AnyDep(deps, IsBoot)
      || exists j :: 0 <= j < |javaSources| && Contains(javaSources[j], "@SpringBootApplication"))
    ensures info.version == BootVersion(deps)
    ensures info.starters == Labels(deps, StarterOf)
    ensures info.actuator <==> AnyDep(deps, IsActuator)
    ensures info.security <==> AnyDep(deps, IsSecurity)
  {
    info := SpringBootInfo(false, "unknown", [], false, false);
    for i := 0 to |deps|
      invariant info.detected <==> AnyDep(deps[..i], IsBoot)
      invariant info.version == BootVersion(deps[..i])
      invariant info.starters == Labels(deps[..i], StarterOf)
      invariant info.actuator <==> AnyDep(deps[..i], IsActuator)
      invariant info.security <==> AnyDep(deps[..i], IsSecurity)
    {
      var d := deps[i];
      assert deps[..i + 1][..i] == deps[..i];
      AnyDepSnoc(deps, i, IsBoot);
      AnyDepSnoc(deps, i, IsActuator);
      AnyDepSnoc(deps, i, IsSecurity);
      LabelsSnoc(deps, i, StarterOf);
      var key := ArtifactKey(d);
      if key.Some? {
        var artifactId := key.value;
        if Contains(artifactId, "spring-boot") {
          info := info.(detected := true);
          if Contains(artifactId, StarterPrefix) {
            info := info.(starters := info.starters + [Replace(artifactId, StarterPrefix, "")]);
          }
          if Contains(artifactId, "starter-actuator") {
            info := info.(actuator := true);
          }
          if Contains(artifactId, "starter-security") {
            info := info.(security := true);
          }
          if d.version.Some? && d.version.value != [] {
            info := info.(version := d.version.value);
          }
        }
      }
    }
    assert deps[..|deps|] == deps;
    ghost var records := info;
    var j := 0;
    while j < |javaSources|
      invariant j <= |javaSources|
      invariant info == records.(detected := info.detected)
      invariant info.detected <==> records.detected || exists k :: 0 <= k < j && Contains(javaSources[k], "@SpringBootApplication")
    {
      if Contains(javaSources[j], "@SpringBootApplication") {
        info := info.(detected := true);
        break;
      }
      j := j + 1;
    }
  }

  /** A starter artifact `spring-boot-starter-<name>` gives the lower-cased
      `<name>` when that holds no further prefix. */
  lemma StarterName(name: string)
    requires !Contains(Lower(name), StarterPrefix)
    ensures Labels([Dependency(Some(StarterPrefix + name), None, None)], StarterOf) == [Lower(name)]
  {
    var d := Dependency(Some(StarterPrefix + name), None, None);
    var key := StarterPrefix + Lower(name);
    StarterKey(name);
    assert ArtifactKey(d) == Some(key);
    StarterKeyContains(Lower(name));
    ReplaceLeading(StarterPrefix, Lower(name), "");
    ReplaceAbsent(Lower(name), StarterPrefix, "");
    assert Replace(key, StarterPrefix, "") == Lower(name);
    assert StarterOf(key) == Some(Lower(name));
    assert [d][..0] == [];
  }

  lemma StarterKey(name: string)
    ensures Lower(StarterPrefix + name) == StarterPrefix + Lower(name)
  {
    LowerAppend(StarterPrefix, name);
    LowerNoUpper(StarterPrefix);
  }

  lemma StarterKeyContains(x: string)
    ensures Contains(StarterPrefix + x, "spring-boot") && Contains(StarterPrefix + x, StarterPrefix)
  {
    var s := StarterPrefix + x;
    assert s[..|StarterPrefix|] == StarterPrefix;
    assert s[..11] == "spring-boot";
    ContainsFromIndex(s, "spring-boot", 0);
    ContainsFromIndex(s, StarterPrefix, 0);
  }

  /** The common case: `spring-boot-starter-web` is listed as `web`. */
  lemma WebStarter()
    ensures Labels([Dependency(Some("spring-boot-starter-web"), None, None)], StarterOf) == ["web"]
  {
    assert "spring-boot-starter-web" == StarterPrefix + "web";
    ContainsShort("web", StarterPrefix);
    LowerNoUpper("web");
    StarterName("web");
  }

  /** The version no record supplies stays "unknown"; a supplied one is the
      non-empty version of a Spring Boot record. */
  lemma {:induction false} BootVersionSource(deps: seq<Dependency>)
    ensures BootVersion(deps) == "unknown" || exists i :: 0 <= i < |deps| && BootVersioned(deps[i]) && deps[i].version.value == BootVersion(deps)
    ensures (forall i :: 0 <= i < |deps| ==> !BootVersioned(deps[i])) ==> BootVersion(deps) == "unknown"
    decreases |deps|
  {
    if deps != [] {
      var init := deps[..|deps| - 1];
      BootVersionSource(init);
      if !BootVersioned(deps[|deps| - 1]) && BootVersion(init) != "unknown" {
        var i :| 0 <= i < |init| && BootVersioned(init[i]) && init[i].version.value == BootVersion(init);
        assert deps[i] == init[i];
      }
      if forall i :: 0 <= i < |deps| ==> !BootVersioned(deps[i]) {
        assert forall i :: 0 <= i < |init| ==> init[i] == deps[i];
      }
    }
  }

  // ---------------------------------------------------------------------------
  // Databases
  // ---------------------------------------------------------------------------

  predicate JpaTerm(k: string) {
    Contains(k, "hibernate") || Contains(k, "jpa") || Contains(k, "javax.persistence")
  }

  predicate JdbcTerm(k: string) {
    Contains(k, "jdbc") || Contains(k, "mysql") || Contains(k, "postgresql") || Contains(k, "oracle") || Contains(k, "sqlserver")
  }

  predicate NoSqlTerm(k: string) {
    Contains(k, "mongodb") || Contains(k, "redis") || Contains(k, "cassandra") || Contains(k, "neo4j")
  }

  /** The technology chain: MySQL, PostgreSQL, Oracle, SQL Server, first match wins. */
  function TechnologyOf(k: string): Option<string> {
    if Contains(k, "mysql") then Some("MySQL")
    else if Contains(k, "postgresql") then Some("PostgreSQL")
    else if Contains(k, "oracle") then Some("Oracle")
    else if Contains(k, "sqlserver") then Some("SQL Server")
    else None
  }

  /** The technology chain is tried only on JDBC keys. */
  function JdbcTechnology(k: string): Option<string> {
    if JdbcTerm(k) then TechnologyOf(k) else None
  }

  /** A NoSQL key is listed as itself. */
  function NoSqlOf(k: string): Option<string> {
    if NoSqlTerm(k) then Some(k) else None
  }

  predicate DepJpa(d: Dependency) { ArtifactKey(d).Some? && JpaTerm(ArtifactKey(d).value) }
  predicate DepJdbc(d: Dependency) { ArtifactKey(d).Some? && JdbcTerm(ArtifactKey(d).value) }
  predicate DepNoSql(d: Dependency) { ArtifactKey(d).Some? && NoSqlTerm(ArtifactKey(d).value) }
  predicate DepDatabase(d: Dependency) { DepJpa(d) || DepJdbc(d) || DepNoSql(d) }

  datatype DatabaseInfo = DatabaseInfo(detected: bool, technologies: seq<string>, jpa: bool, jdbc: bool, nosql: seq<string>)

  method DetectDatabase(deps: seq<Dependency>) returns (db: DatabaseInfo)
    ensures db.jpa <==> AnyDep(deps, DepJpa)
    ensures db.jdbc <==> AnyDep(deps, DepJdbc)
    ensures db.technologies == Labels(deps, JdbcTechnology)
    ensures db.nosql == Labels(deps, NoSqlOf)
    ensures db.detected <==> AnyDep(deps, DepDatabase)
    ensures db.detected <==> db.jpa || db.jdbc || db.nosql != []
  {
    db := DatabaseInfo(false, [], false, false, []);
    for i := 0 to |deps|
      invariant db.jpa <==> AnyDep(deps[..i], DepJpa)
      invariant db.jdbc <==> AnyDep(deps[..i], DepJdbc)
      invariant db.technologies == Labels(deps[..i], JdbcTechnology)
      invariant db.nosql == Labels(deps[..i], NoSqlOf)
      invariant db.detected <==> db.jpa || db.jdbc || db.nosql != []
    {
      AnyDepSnoc(deps, i, DepJpa);
      AnyDepSnoc(deps, i, DepJdbc);
      LabelsSnoc(deps, i, JdbcTechnology);
      LabelsSnoc(deps, i, NoSqlOf);
      var key := ArtifactKey(deps[i]);
      if key.Some? {
        db := RecordDatabase(db, key.value);
      }
    }
    assert deps[..|deps|] == deps;
    DatabaseDetected(deps);
  }

  /** One pass of the loop body on a record's key: the JPA test, the JDBC test
      with its technology chain, and the NoSQL test. */
  method RecordDatabase(db: DatabaseInfo, artifactId: string) returns (next: DatabaseInfo)
    ensures next.jpa == (db.jpa || JpaTerm(artifactId))
    ensures next.jdbc == (db.jdbc || JdbcTerm(artifactId))
    ensures next.technologies == db.technologies + (if JdbcTechnology(artifactId).Some? then [JdbcTechnology(artifactId).value] else [])
    ensures next.nosql == db.nosql + (if NoSqlTerm(artifactId) then [artifactId] else [])
    ensures next.detected == (db.detected || JpaTerm(artifactId) || JdbcTerm(artifactId) || NoSqlTerm(artifactId))
  {
    next := db;
    if JpaTerm(artifactId) {
      next := next.(jpa := true, detected := true);
    }
    if JdbcTerm(artifactId) {
      next := next.(jdbc := true, detected := true);
      if Contains(artifactId, "mysql") {
        next := next.(technologies := next.technologies + ["MySQL"]);
      } else if Contains(artifactId, "postgresql") {
        next := next.(technologies := next.technologies + ["PostgreSQL"]);
      } else if Contains(artifactId, "oracle") {
        next := next.(technologies := next.technologies + ["Oracle"]);
      } else if Contains(artifactId, "sqlserver") {
        next := next.(technologies := next.technologies + ["SQL Server"]);
      }
    }
    if NoSqlTerm(artifactId) {
      next := next.(nosql := next.nosql + [artifactId], detected := true);
    }
  }

  /** Something was detected exactly when a flag is set or a NoSQL key listed. */
  lemma DatabaseDetected(deps: seq<Dependency>)
    ensures AnyDep(deps, DepDatabase) <==> AnyDep(deps, DepJpa) || AnyDep(deps, DepJdbc) || Labels(deps, NoSqlOf) != []
  {
    LabelsMembers(deps, NoSqlOf);
    if AnyDep(deps, DepDatabase) {
      var i :| 0 <= i < |deps| && DepDatabase(deps[i]);
      if DepNoSql(deps[i]) {
        assert Labelled(deps[i], NoSqlOf, ArtifactKey(deps[i]).value);
      }
    }
    if Labels(deps, NoSqlOf) != [] {
      var x := Labels(deps, NoSqlOf)[0];
      assert x in Labels(deps, NoSqlOf);
      var i :| 0 <= i < |deps| && Labelled(deps[i], NoSqlOf, x);
      assert DepDatabase(deps[i]);
    }
  }

  /** The chain is ordered: MySQL beats PostgreSQL, which beats Oracle, which beats
      SQL Server; every driver name is a JDBC term, so each gets its label. */
  lemma TechnologyPriority(k: string)
    ensures Contains(k, "mysql") ==> JdbcTechnology(k) == Some("MySQL")
    ensures !Contains(k, "mysql") && Contains(k, "postgresql") ==> JdbcTechnology(k) == Some("PostgreSQL")
    ensures !Contains(k, "mysql") && !Contains(k, "postgresql") && Contains(k, "oracle") ==> JdbcTechnology(k) == Some("Oracle")
    ensures !Contains(k, "mysql") && !Contains(k, "postgresql") && !Contains(k, "oracle") && Contains(k, "sqlserver")
      ==> JdbcTechnology(k) == Some("SQL Server")
    ensures JdbcTechnology(k).None? <==> !Contains(k, "mysql") && !Contains(k, "postgresql") && !Contains(k, "oracle") && !Contains(k, "sqlserver")
  {
  }

  /** Every technology label is one of the four. */
  lemma TechnologiesWithin(deps: seq<Dependency>)
    ensures forall x :: x in Labels(deps, JdbcTechnology) ==> x in {"MySQL", "PostgreSQL", "Oracle", "SQL Server"}
  {
    LabelsWithin(deps, JdbcTechnology, {"MySQL", "PostgreSQL", "Oracle", "SQL Server"});
  }

  // ---------------------------------------------------------------------------
  // Testing and other frameworks
  // ---------------------------------------------------------------------------

  /** JUnit, TestNG, Mockito, Spring Test, TestContainers: first match wins. */
  function TestingLabel(k: string): Option<string> {
    if Contains(k, "junit") then Some("JUnit")
    else if Contains(k, "testng") then Some("TestNG")
    else if Contains(k, "mockito") then Some("Mockito")
    else if Contains(k, "spring-test") then Some("Spring Test")
    else if Contains(k, "testcontainers") then Some("TestContainers")
    else None
  }

  /** Spring without Boot, Swagger/OpenAPI, Lombok, MapStruct, logging: first
      match wins. */
  function OtherLabel(k: string): Option<string> {
    if Contains(k, "spring") && !Contains(k, "boot") then Some("Spring Framework")
    else if Contains(k, "swagger") || Contains(k, "openapi") then Some("Swagger/OpenAPI")
    else if Contains(k, "lombok") then Some("Lombok")
    else if Contains(k, "mapstruct") then Some("MapStruct")
    else if Contains(k, "slf4j") || Contains(k, "logback") then Some("Logging (SLF4J/Logback)")
    else None
  }

  const TestingLabels: set<string> := {"JUnit", "TestNG", "Mockito", "Spring Test", "TestContainers"}

  const OtherLabels: set<string> := {"Spring Framework", "Swagger/OpenAPI", "Lombok", "MapStruct", "Logging (SLF4J/Logback)"}

  /** The loop appends one label per labelled record; duplicates are then dropped. */
  method DetectTestingFrameworks(deps: seq<Dependency>) returns (frameworks: set<string>)
    ensures forall x :: x in frameworks <==> exists i :: 0 <= i < |deps| && Labelled(deps[i], TestingLabel, x)
    ensures frameworks <= TestingLabels
  {
    var found: seq<string> := [];
    for i := 0 to |deps|
      invariant found == Labels(deps[..i], TestingLabel)
    {
      LabelsSnoc(deps, i, TestingLabel);
      var key := ArtifactKey(deps[i]);
      if key.Some? {
        var artifactId := key.value;
        if Contains(artifactId, "junit") {
          found := found + ["JUnit"];
        } else if Contains(artifactId, "testng") {
          found := found + ["TestNG"];
        } else if Contains(artifactId, "mockito") {
          found := found + ["Mockito"];
        } else if Contains(artifactId, "spring-test") {
          found := found + ["Spring Test"];
        } else if Contains(artifactId, "testcontainers") {
          found := found + ["TestContainers"];
        }
      }
    }
    assert deps[..|deps|] == deps;
    LabelsMembers(deps, TestingLabel);
    LabelsWithin(deps, TestingLabel, TestingLabels);
    frameworks := set x | x in found;
  }

  /** The same loop over the other-framework chain. */
  method DetectOtherFrameworks(deps: seq<Dependency>) returns (frameworks: set<string>)
    ensures forall x :: x in frameworks <==> exists i :: 0 <= i < |deps| && Labelled(deps[i], OtherLabel, x)
    ensures frameworks <= OtherLabels
  {
    var found: seq<string> := [];
    for i := 0 to |deps|
      invariant found == Labels(deps[..i], OtherLabel)
    {
      LabelsSnoc(deps, i, OtherLabel);
      var key := ArtifactKey(deps[i]);
      if key.Some? {
        var artifactId := key.value;
        if Contains(artifactId, "spring") && !Contains(artifactId, "boot") {
          found := found + ["Spring Framework"];
        } else if Contains(artifactId, "swagger") || Contains(artifactId, "openapi") {
          found := found + ["Swagger/OpenAPI"];
        } else if Contains(artifactId, "lombok") {
          found := found + ["Lombok"];
        } else if Contains(artifactId, "mapstruct") {
          found := found + ["MapStruct"];
        } else if Contains(artifactId, "slf4j") || Contains(artifactId, "logback") {
          found := found + ["Logging (SLF4J/Logback)"];
        }
      }
    }
    assert deps[..|deps|] == deps;
    LabelsMembers(deps, OtherLabel);
    LabelsWithin(deps, OtherLabel, OtherLabels);
    frameworks := set x | x in found;
  }

  /** The testing chain's order: JUnit beats every later rule, TestNG beats Mockito,
      Mockito beats Spring Test, and Spring Test beats TestContainers. */
  lemma TestingPriority(k: string)
    ensures Contains(k, "junit") ==> TestingLabel(k) == Some("JUnit")
    ensures !Contains(k, "junit") && Contains(k, "testng") ==> TestingLabel(k) == Some("TestNG")
    ensures !Contains(k, "junit") && !Contains(k, "testng") && Contains(k, "mockito") ==> TestingLabel(k) == Some("Mockito")
    ensures !Contains(k, "junit") && !Contains(k, "testng") && !Contains(k, "mockito") && Contains(k, "spring-test")
      ==> TestingLabel(k) == Some("Spring Test")
    ensures TestingLabel(k).Some? ==> TestingLabel(k).value in TestingLabels
  {
  }

  /** A Spring Boot artifact is never counted as the plain Spring Framework, and a
      Spring artifact without Boot is, whatever else its key names. */
  lemma OtherPriority(k: string)
    ensures Contains(k, "boot") ==> OtherLabel(k) != Some("Spring Framework")
    ensures Contains(k, "spring") && !Contains(k, "boot") ==> OtherLabel(k) == Some("Spring Framework")
    ensures OtherLabel(k).Some? ==> OtherLabel(k).value in OtherLabels
  {
  }

  /** At most five distinct labels of each kind. */
  lemma FrameworkLabelsBounded(s: set<string>, t: set<string>)
    requires s <= TestingLabels && t <= OtherLabels
    ensures |s| <= 5 && |t| <= 5
  {
    SubsetCard(s, TestingLabels);
    SubsetCard(t, OtherLabels);
    TestingLabelsCount();
    OtherLabelsCount();
  }

  lemma TestingLabelsCount()
    ensures |TestingLabels| == 5
  {
    var a := {"JUnit"} + {"TestNG"};
    assert |a| == 2;
    var b := a + {"Mockito"};
    assert |b| == 3;
    var c := b + {"Spring Test"};
    assert |c| == 4;
    assert TestingLabels == c + {"TestContainers"};
  }

  lemma OtherLabelsCount()
    ensures |OtherLabels| == 5
  {
    var a := {"Spring Framework"} + {"Swagger/OpenAPI"};
    assert |a| == 2;
    var b := a + {"Lombok"};
    assert |b| == 3;
    var c := b + {"MapStruct"};
    assert |c| == 4;
    assert OtherLabels == c + {"Logging (SLF4J/Logback)"};
  }

  lemma SubsetCard(s: set<string>, t: set<string>)
    requires s <= t
    ensures |s| <= |t|
  {
    assert t == s + (t - s);
  }
}
