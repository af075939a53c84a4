/**
 * The heuristic entity extractor (github_neo_4_j_sync.py:201-474): one Module entity per
 * source document, plus the classes and routines a line-by-line scanner recognises for
 * Python, JavaScript/TypeScript and Java. Every `split(..)[1]` in the scanners is guarded
 * by a matching `startswith`/`in` test, so the scanners are total.
 */
module Extractor {
  import opened Wrappers
  import opened Text
  import opened Changes
  import opened Entities

  datatype Language = Python | JavaScript | TypeScript | Java | Cpp | C | Go | Rust | Unknown {
    /** The `languageName` string. */
    function Name(): string {
      match this
      case Python => "Python"
      case JavaScript => "JavaScript"
      case TypeScript => "TypeScript"
      case Java => "Java"
      case Cpp => "C++"
      case C => "C"
      case Go => "Go"
      case Rust => "Rust"
      case Unknown => "Unknown"
    }
  }

  /** detect_language's dictionary, in its insertion (= iteration) order. */
  const LANGUAGES: seq<(string, Language)> :=
    [(".py", Python), (".js", JavaScript), (".ts", TypeScript), (".java", Java),
     (".cpp", Cpp), (".c", C), (".go", Go), (".rs", Rust)]

  /** The loop of detect_language: the language of the first listed extension that is a
      case-sensitive suffix of `path`. */
  function FirstMatch(table: seq<(string, Language)>, path: string): Language {
    if |table| == 0 then Unknown
    else if EndsWith(path, table[0].0) then table[0].1
    else FirstMatch(table[1..], path)
  }

  /** The loop returns a listed language whose extension matches, 'Unknown' when none does,
      and the language of the first match. */
  lemma {:induction false} FirstMatchSpec(table: seq<(string, Language)>, path: string)
    ensures var r := FirstMatch(table, path);
            && (r == Unknown || exists k :: 0 <= k < |table| && table[k].1 == r && EndsWith(path, table[k].0))
            && ((forall k :: 0 <= k < |table| ==> !EndsWith(path, table[k].0)) ==> r == Unknown)
            && (forall k :: (0 <= k < |table| && EndsWith(path, table[k].0) && table[k].1 != Unknown
                             && forall j :: 0 <= j < k ==> !EndsWith(path, table[j].0)) ==> r == table[k].1)
  {
    if |table| > 0 {
      FirstMatchSpec(table[1..], path);
      assert forall k :: 0 < k < |table| ==> table[k] == table[1..][k - 1];
      var r := FirstMatch(table, path);
      if !EndsWith(path, table[0].0) && r != Unknown {
        var k :| 0 <= k < |table[1..]| && table[1..][k].1 == r && EndsWith(path, table[1..][k].0);
        assert table[k + 1].1 == r && EndsWith(path, table[k + 1].0);
      }
    }
  }

  /** detect_language (github_neo_4_j_sync.py:455-474). */
  function DetectLanguage(path: string): Language {
    FirstMatch(LANGUAGES, path)
  }

  /** No listed extension is a suffix of another. */
  lemma ExtensionsSuffixFree(i: nat, j: nat)
    requires i < |LANGUAGES| && j < |LANGUAGES| && i != j
    ensures !EndsWith(LANGUAGES[j].0, LANGUAGES[i].0)
  {
    var a, b := LANGUAGES[i].0, LANGUAGES[j].0;
    if |a| <= |b| {
      if a[|a| - 1] == b[|b| - 1] {
        // only ".js", ".ts" and ".rs" share a last character, and they differ before it
        assert |a| == |b| == 3 && a[1] != b[1];
        assert b[|b| - |a|..][1] == b[1];
      } else {
        assert b[|b| - |a|..][|a| - 1] == b[|b| - 1];
      }
    }
  }

  lemma SuffixOfSuffix(p: string, a: string, b: string)
    requires EndsWith(p, a) && EndsWith(p, b) && |a| <= |b|
    ensures EndsWith(b, a)
  {
    assert b[|b| - |a|..] == p[|p| - |a|..];
  }

  /** So a path ends with at most one listed extension. */
  lemma OneExtension(path: string, i: nat, j: nat)
    requires i < |LANGUAGES| && j < |LANGUAGES| && i != j
    ensures !(EndsWith(path, LANGUAGES[i].0) && EndsWith(path, LANGUAGES[j].0))
  {
    if EndsWith(path, LANGUAGES[i].0) && EndsWith(path, LANGUAGES[j].0) {
      if |LANGUAGES[i].0| <= |LANGUAGES[j].0| {
        SuffixOfSuffix(path, LANGUAGES[i].0, LANGUAGES[j].0);
        ExtensionsSuffixFree(i, j);
      } else {
        SuffixOfSuffix(path, LANGUAGES[j].0, LANGUAGES[i].0);
        ExtensionsSuffixFree(j, i);
      }
    }
  }

  /** The language is the one whose extension `path` ends with, whatever the table's order. */
  lemma DetectLanguageAt(path: string, k: nat)
    requires k < |LANGUAGES|
    ensures DetectLanguage(path) == LANGUAGES[k].1 <==> EndsWith(path, LANGUAGES[k].0)
  {
    if EndsWith(path, LANGUAGES[k].0) {
      DetectMatched(path, k);
    }
    if DetectLanguage(path) == LANGUAGES[k].1 {
      DetectSound(path, k);
    }
  }

  lemma DetectMatched(path: string, k: nat)
    requires k < |LANGUAGES| && EndsWith(path, LANGUAGES[k].0)
    ensures DetectLanguage(path) == LANGUAGES[k].1
  {
    forall j | 0 <= j < k ensures !EndsWith(path, LANGUAGES[j].0) {
      OneExtension(path, j, k);
    }
    FirstMatchSpec(LANGUAGES, path);
    assert LANGUAGES[k].1 != Unknown;
  }

  lemma DetectSound(path: string, k: nat)
    requires k < |LANGUAGES| && DetectLanguage(path) == LANGUAGES[k].1
    ensures EndsWith(path, LANGUAGES[k].0)
  {
    FirstMatchSpec(LANGUAGES, path);
    assert DetectLanguage(path) != Unknown;
    var k' :| 0 <= k' < |LANGUAGES| && LANGUAGES[k'].1 == DetectLanguage(path) && EndsWith(path, LANGUAGES[k'].0);
    if k' != k {
      DistinctLanguages(k', k);
    }
  }

  lemma DistinctLanguages(i: nat, j: nat)
    requires i < |LANGUAGES| && j < |LANGUAGES| && i != j
    ensures LANGUAGES[i].1 != LANGUAGES[j].1
  {
  }

  /** `languageName` is a case-sensitive suffix match on the listed extensions, and
      'Unknown' exactly when no listed extension matches. */
  lemma DetectLanguageSpec(path: string)
    ensures forall k :: 0 <= k < |LANGUAGES| ==> (DetectLanguage(path) == LANGUAGES[k].1 <==> EndsWith(path, LANGUAGES[k].0))
    ensures DetectLanguage(path) == Unknown <==> forall k :: 0 <= k < |LANGUAGES| ==> !EndsWith(path, LANGUAGES[k].0)
  {
    forall k | 0 <= k < |LANGUAGES|
      ensures DetectLanguage(path) == LANGUAGES[k].1 <==> EndsWith(path, LANGUAGES[k].0)
    {
      DetectLanguageAt(path, k);
    }
    FirstMatchSpec(LANGUAGES, path);
  }

  /** `f"{file_path}:{i+1}"`: the path of the entity found on the line at index `i`. */
  function LinePath(file: string, i: nat): string {
    file + ":" + NatToString(i + 1)
  }

  lemma LinePathInjective(file: string, i: nat, j: nat)
    requires LinePath(file, i) == LinePath(file, j)
    ensures i == j
  {
    assert NatToString(i + 1) == LinePath(file, i)[|file| + 1..];
    assert NatToString(j + 1) == LinePath(file, j)[|file| + 1..];
    NatToStringInjective(i + 1, j + 1);
  }

  /** What a scanner recognises on one line: a class, or a routine of some label related to
      the file's node by some relationship. */
  datatype Hit =
    | ClassHit(name: string)
    | RoutineHit(isMethod: bool, relType: RelType, toLabel: Label, name: string)
  {
    /** The label of the entity the hit becomes. */
    function Kind(): Label {
      if ClassHit? then Class else if isMethod then Method else Subroutine
    }
  }

  /** The attributes every scanner entity carries (github_neo_4_j_sync.py:284-292). */
  function LineAttrs(name: string, file: string, i: nat, sha: string, ts: string): Props {
    map[Path := Str(LinePath(file, i)), Name := Str(name), Status := Str(ACTIVE),
        CommitSha := Str(sha), LastUpdated := Str(ts), Version := Int(1), LineNumber := Int(i + 1)]
  }

  /** The entity built for a hit on the stripped line at index `i`: a class is related to the
      Module of `file` by `has_class`; a routine also keeps the stripped line as `code`. */
  function HitEntity(h: Hit, line: string, file: string, i: nat, sha: string, ts: string): Entity {
    match h
    case ClassHit(name) =>
      Entity(Class, name, LineAttrs(name, file, i, sha, ts), [Relation(HasClass, Module, file)])
    case RoutineHit(_, rel, to, name) =>
      Entity(h.Kind(), name, LineAttrs(name, file, i, sha, ts)[Code := Str(line)], [Relation(rel, to, file)])
  }

  /** Every scanner entity records its line, has the path `file:<line>`, names itself in its
      attributes, is active at `sha`, and has exactly one relation, whose target is `file`. */
  lemma HitEntityShape(h: Hit, line: string, file: string, i: nat, sha: string, ts: string)
    ensures var e := HitEntity(h, line, file, i, sha, ts);
            && e.attrs[Path] == Str(LinePath(file, i))
            && e.attrs[LineNumber] == Int(i + 1)
            && e.attrs[Name] == Str(e.name) && e.name == h.name
            && e.attrs[Status] == Str(ACTIVE) && e.attrs[CommitSha] == Str(sha) && e.attrs[Version] == Int(1)
            && e.kind == h.Kind() && e.kind != Module
            && (h.ClassHit? <==> e.kind == Class && Code !in e.attrs)
            && |e.relations| == 1 && e.relations[0].toName == file
  {
  }

  /** `line.split('class ')[1].split('(')[0].split(':')[0].strip()`. */
  function PythonClassName(line: string): string
    requires Contains(line, "class ")
  {
    Strip(Before(Before(Field1(line, "class "), "("), ":"))
  }

  /** The body of extract_python_entities' loop for a stripped line
      (github_neo_4_j_sync.py:278-330). The "method if indented" test looks at the
      already-stripped line, which starts with "def ", so it never holds. */
  function PythonHit(line: string): Option<Hit> {
    if StartsWith(line, "class ") && Contains(line, ":") then
      StartsWithContains(line, "class ");
      Some(ClassHit(PythonClassName(line)))
    else if StartsWith(line, "def ") && Contains(line, "(") then
      StartsWithContains(line, "def ");
      var name := Strip(Before(Field1(line, "def "), "("));
      if StartsWith(line, "    def ") then Some(RoutineHit(true, DefinesMethod, Module, name))
      else Some(RoutineHit(false, HasSubroutine, Module, name))
    else None
  }

  /** A Python line yields a class exactly when it starts with "class " and holds a ':', and
      otherwise a routine exactly when it starts with "def " and holds a '('; that routine is
      always a Subroutine (never a Method) related by `has_subroutine`, and a class name never
      keeps the '(' of its bases or its ':'. */
  lemma PythonHitSpec(line: string)
    ensures var r := PythonHit(line);
            && ((r.Some? && r.value.ClassHit?) <==> StartsWith(line, "class ") && Contains(line, ":"))
            && ((r.Some? && r.value.RoutineHit?)
                <==> !(StartsWith(line, "class ") && Contains(line, ":")) && StartsWith(line, "def ") && Contains(line, "("))
            && (r.Some? && r.value.RoutineHit? ==> r.value.Kind() == Subroutine && r.value.relType == HasSubroutine)
            && (r.Some? && r.value.ClassHit? ==> !Contains(r.value.name, "(") && !Contains(r.value.name, ":"))
  {
    if StartsWith(line, "class ") && Contains(line, ":") {
      StartsWithContains(line, "class ");
      var b := Before(Before(Field1(line, "class "), "("), ":");
      NoSepAfterStrip(b, ":");
      NotInSlice(Before(Field1(line, "class "), "("), "(", 0, |b|);
      assert b == Before(Field1(line, "class "), "(")[0..|b|];
      NoSepAfterStrip(b, "(");
    } else if StartsWith(line, "def ") && Contains(line, "(") {
      assert line[0] == 'd';
      assert !StartsWith(line, "    def ");
    }
  }

  /** A separator absent from a text is absent from its stripped form. */
  lemma NoSepAfterStrip(s: string, sep: string)
    requires !Contains(s, sep)
    ensures !Contains(Strip(s), sep)
  {
    var k := SkipSpaces(s, 0);
    NotInSlice(s, sep, k, k + |Strip(s)|);
  }

  /** `line.split('class ')[1].split(' ')[0].split('{')[0].strip()` (JavaScript and Java). */
  function BraceClassName(line: string): string
    requires Contains(line, "class ")
  {
    Strip(Before(Before(Field1(line, "class "), " "), "{"))
  }

  /** The body of extract_js_entities' loop for the stripped line at index `i`
      (github_neo_4_j_sync.py:344-393). An arrow function is named by the text before its first
      '='; the `anonymous_{i}` fallback needs a line with "=>" but no '=', which cannot exist. */
  function JsHit(line: string, i: nat): Option<Hit> {
    if StartsWith(line, "class ") && (Contains(line, "{") || EndsWith(line, "{")) then
      StartsWithContains(line, "class ");
      Some(ClassHit(BraceClassName(line)))
    else if (Contains(line, "function ") || Contains(line, "=>")) && Contains(line, "(") && Contains(line, ")") then
      var name :=
        if Contains(line, "function ") then Strip(Before(Field1(line, "function "), "("))
        else if Contains(line, "=") then Strip(Before(line, "="))
        else "anonymous_" + NatToString(i);
      Some(RoutineHit(false, HasSubroutine, Module, name))
    else None
  }

  /** A JavaScript line yields a class exactly when it starts with "class " and holds a '{'
      (the `endswith('{')` alternative adds nothing), otherwise a Subroutine exactly when it holds
      "function " or "=>" and both parentheses. */
  lemma JsHitSpec(line: string, i: nat)
    ensures var r := JsHit(line, i);
            && ((r.Some? && r.value.ClassHit?) <==> StartsWith(line, "class ") && Contains(line, "{"))
            && ((r.Some? && r.value.RoutineHit?)
                <==> !(StartsWith(line, "class ") && Contains(line, "{"))
                     && (Contains(line, "function ") || Contains(line, "=>")) && Contains(line, "(") && Contains(line, ")"))
            && (r.Some? && r.value.RoutineHit? ==> r.value.Kind() == Subroutine && r.value.relType == HasSubroutine)
  {
    EndsWithContains(line, "{");
  }

  lemma EndsWithContains(s: string, p: string)
    ensures EndsWith(s, p) ==> Contains(s, p)
  {
    if EndsWith(s, p) {
      assert OccursAt(s, p, |s| - |p|);
    }
  }

  /** `'=>' in line` implies `'=' in line`. */
  lemma ArrowHasEquals(line: string)
    requires Contains(line, "=>")
    ensures Contains(line, "=")
  {
    var j :| OccursAt(line, "=>", j);
    assert line[j..j + 2] == "=>";
    assert line[j] == '=';
    assert line[j..j + 1] == "=";
    assert OccursAt(line, "=", j);
  }

  /** The JavaScript scanner never falls back to an `anonymous_{i}` name: an arrow-function
      line is always named by its text before the first '='. */
  lemma JsArrowNamed(line: string, i: nat)
    requires !StartsWith(line, "class ") || !Contains(line, "{")
    requires !Contains(line, "function ") && Contains(line, "=>") && Contains(line, "(") && Contains(line, ")")
    ensures JsHit(line, i) == Some(RoutineHit(false, HasSubroutine, Module, Strip(Before(line, "="))))
  {
    ArrowHasEquals(line);
    EndsWithContains(line, "{");
  }

  /** `line.startswith('public class ') or line.startswith('class ')`. */
  predicate JavaClassLine(line: string) {
    StartsWith(line, "public class ") || StartsWith(line, "class ")
  }

  predicate JavaMethodLine(line: string) {
    && (Contains(line, "public ") || Contains(line, "private ") || Contains(line, "protected "))
    && Contains(line, "(") && Contains(line, ")") && Contains(line, "{")
  }

  lemma JavaClassContains(line: string)
    requires JavaClassLine(line)
    ensures Contains(line, "class ")
  {
    if StartsWith(line, "public class ") {
      assert line[7..13] == "class ";
      assert OccursAt(line, "class ", 7);
    } else {
      StartsWithContains(line, "class ");
    }
  }

  /** `line.split('(')[0].split(' ')[-1].strip()`: the last space-separated word before the
      first '('. */
  function JavaMethodName(line: string): string {
    Strip(AfterLast(Before(line, "("), ' '))
  }

  /** The body of extract_java_entities' loop (github_neo_4_j_sync.py:407-450). A method is
      related by `defines_method` to a Class whose name is the file path. */
  function JavaHit(line: string): Option<Hit> {
    if JavaClassLine(line) then
      JavaClassContains(line);
      Some(ClassHit(BraceClassName(line)))
    else if JavaMethodLine(line) then
      Some(RoutineHit(true, DefinesMethod, Class, JavaMethodName(line)))
    else None
  }

  /** A Java line yields a class exactly when it starts with "public class " or "class ",
      otherwise a Method exactly when it has a visibility word and '(', ')' and '{'; a method name
      is a single word. */
  lemma JavaHitSpec(line: string)
    ensures var r := JavaHit(line);
            && ((r.Some? && r.value.ClassHit?) <==> JavaClassLine(line))
            && ((r.Some? && r.value.RoutineHit?) <==> !JavaClassLine(line) && JavaMethodLine(line))
            && (r.Some? && r.value.RoutineHit? ==>
                  r.value.Kind() == Method && r.value.relType == DefinesMethod && r.value.toLabel == Class
                  && ' ' !in r.value.name)
  {
    if !JavaClassLine(line) && JavaMethodLine(line) {
      NoSpaceAfterStrip(AfterLast(Before(line, "("), ' '));
    }
  }

  lemma NoSpaceAfterStrip(s: string)
    requires ' ' !in s
    ensures ' ' !in Strip(s)
  {
    var r := Strip(s);
    var k := SkipSpaces(s, 0);
    forall j | 0 <= j < |r| ensures r[j] != ' ' {
      assert r[j] == s[k + j];
    }
  }

  /** The three scanners, selected by language (github_neo_4_j_sync.py:256-266). */
  datatype Scanner = PythonScanner | JsScanner | JavaScanner

  function LineHit(sc: Scanner, line: string, i: nat): Option<Hit> {
    match sc
    case PythonScanner => PythonHit(line)
    case JsScanner => JsHit(line, i)
    case JavaScanner => JavaHit(line)
  }

  /** A hit relates its entity to a Module, or to a Class. */
  predicate TargetsModuleOrClass(h: Option<Hit>) {
    h.Some? && h.value.RoutineHit? ==> h.value.toLabel in {Module, Class}
  }

  /** A scanner relates a routine to the file's Module, or, for a Java method, to a Class. */
  lemma LineHitTarget(sc: Scanner, line: string, i: nat)
    ensures TargetsModuleOrClass(LineHit(sc, line, i))
  {
  }

  /** The scanner's verdict on every stripped line of a file, by line index. */
  function Hits(sc: Scanner, lines: seq<string>): (r: seq<Option<Hit>>)
    ensures |r| == |lines|
    ensures forall j :: 0 <= j < |r| ==> TargetsModuleOrClass(r[j])
  {
    HitsFrom(sc, lines, 0)
  }

  function HitsFrom(sc: Scanner, lines: seq<string>, i: nat): (r: seq<Option<Hit>>)
    requires i <= |lines|
    decreases |lines| - i
    ensures |r| == |lines| - i
    ensures forall j :: 0 <= j < |r| ==> TargetsModuleOrClass(r[j])
  {
    if i == |lines| then []
    else
      var rest := HitsFrom(sc, lines, i + 1);
      LineHitTarget(sc, Strip(lines[i]), i);
      assert forall j :: 1 <= j < |rest| + 1 ==> ([LineHit(sc, Strip(lines[i]), i)] + rest)[j] == rest[j - 1];
      [LineHit(sc, Strip(lines[i]), i)] + rest
  }

  /** `e` is the entity made of the hit on the line at index `j`. */
  predicate BuiltAt(hits: seq<Option<Hit>>, lines: seq<string>, j: nat, file: string, sha: string, ts: string, e: Entity)
    requires j < |hits| == |lines|
  {
    hits[j].Some? && e == HitEntity(hits[j].value, Strip(lines[j]), file, j, sha, ts)
  }

  /** The scanner loop `for i, line in enumerate(lines): line = line.strip() ...` from line
      index `i` on, given the scanner's verdict on each line: one entity per hit, in line order. */
  function ScanFrom(hits: seq<Option<Hit>>, lines: seq<string>, i: nat, file: string, sha: string, ts: string): (r: seq<Entity>)
    requires i <= |hits| == |lines|
    decreases |lines| - i
    ensures |r| <= |lines| - i
    ensures forall e :: e in r <==> exists j :: i <= j < |lines| && BuiltAt(hits, lines, j, file, sha, ts, e)
  {
    if i == |lines| then []
    else
      var rest := ScanFrom(hits, lines, i + 1, file, sha, ts);
      match hits[i]
      case Some(h) =>
        assert BuiltAt(hits, lines, i, file, sha, ts, HitEntity(h, Strip(lines[i]), file, i, sha, ts));
        [HitEntity(h, Strip(lines[i]), file, i, sha, ts)] + rest
      case None => rest
  }

  /** An entity made of the hit on line `j` lies at `file:<j+1>` and is no Module or GraphSnapshot. */
  lemma BuiltShape(hits: seq<Option<Hit>>, lines: seq<string>, j: nat, file: string, sha: string, ts: string, e: Entity)
    requires j < |hits| == |lines| && BuiltAt(hits, lines, j, file, sha, ts, e)
    ensures PathOf(e.attrs) == LinePath(file, j) && e.kind != Module && e.kind != GraphSnapshot
  {
    HitEntityShape(hits[j].value, Strip(lines[j]), file, j, sha, ts);
  }

  /** No two entities of a list share a `path`. */
  predicate DistinctPaths(es: seq<Entity>) {
    forall a, b :: 0 <= a < b < |es| ==> PathOf(es[a].attrs) != PathOf(es[b].attrs)
  }

  /** Entities built from the lines after `i` lie at paths other than line `i`'s. */
  lemma LaterPathsDiffer(hits: seq<Option<Hit>>, lines: seq<string>, i: nat, file: string, sha: string, ts: string)
    requires i < |hits| == |lines|
    ensures forall x :: x in ScanFrom(hits, lines, i + 1, file, sha, ts) ==> PathOf(x.attrs) != LinePath(file, i)
  {
    forall x | x in ScanFrom(hits, lines, i + 1, file, sha, ts) ensures PathOf(x.attrs) != LinePath(file, i) {
      var n :| i + 1 <= n < |lines| && BuiltAt(hits, lines, n, file, sha, ts, x);
      BuiltShape(hits, lines, n, file, sha, ts, x);
      if LinePath(file, i) == LinePath(file, n) {
        LinePathInjective(file, i, n);
      }
    }
  }

  /** Prepending an entity whose path no later entity has keeps the paths distinct. */
  lemma DistinctPathsCons(e: Entity, rest: seq<Entity>)
    requires DistinctPaths(rest)
    requires forall x :: x in rest ==> PathOf(x.attrs) != PathOf(e.attrs)
    ensures DistinctPaths([e] + rest)
  {
    var r := [e] + rest;
    forall a, b | 0 <= a < b < |r| ensures PathOf(r[a].attrs) != PathOf(r[b].attrs) {
      assert r[b] == rest[b - 1] && r[b] in rest;
      if a > 0 {
        assert r[a] == rest[a - 1];
      }
    }
  }

  /** Each line yields at most one entity, each at its own `file:<line>` path, so no two
      entities built from line `i` on share a path. */
  lemma {:induction false} ScanPathsDistinctFrom(hits: seq<Option<Hit>>, lines: seq<string>, i: nat, file: string, sha: string, ts: string)
    requires i <= |hits| == |lines|
    ensures DistinctPaths(ScanFrom(hits, lines, i, file, sha, ts))
    decreases |lines| - i
  {
    if i < |lines| {
      ScanPathsDistinctFrom(hits, lines, i + 1, file, sha, ts);
      var rest := ScanFrom(hits, lines, i + 1, file, sha, ts);
      var r := ScanFrom(hits, lines, i, file, sha, ts);
      if hits[i].Some? {
        var e := HitEntity(hits[i].value, Strip(lines[i]), file, i, sha, ts);
        assert r == [e] + rest;
        assert BuiltAt(hits, lines, i, file, sha, ts, e);
        BuiltShape(hits, lines, i, file, sha, ts, e);
        LaterPathsDiffer(hits, lines, i, file, sha, ts);
        DistinctPathsCons(e, rest);
      } else {
        assert r == rest;
      }
    }
  }

  /** So every relation of a scanned entity targets a Module or a Class. */
  lemma ScanTargets(sc: Scanner, lines: seq<string>, file: string, sha: string, ts: string)
    ensures TargetsWithin(Scan(sc, lines, file, sha, ts), {Class})
  {
    var hits := Hits(sc, lines);
    forall e | e in ScanFrom(hits, lines, 0, file, sha, ts) ensures TargetsWithin([e], {Class}) {
      var j :| 0 <= j < |lines| && BuiltAt(hits, lines, j, file, sha, ts, e);
      HitEntityTarget(hits[j].value, Strip(lines[j]), file, j, sha, ts);
    }
  }

  lemma HitEntityTarget(h: Hit, line: string, file: string, i: nat, sha: string, ts: string)
    requires h.RoutineHit? ==> h.toLabel in {Module, Class}
    ensures TargetsWithin([HitEntity(h, line, file, i, sha, ts)], {Class})
  {
  }

  /** extract_*_entities over all the lines of a file. */
  function Scan(sc: Scanner, lines: seq<string>, file: string, sha: string, ts: string): seq<Entity> {
    ScanFrom(Hits(sc, lines), lines, 0, file, sha, ts)
  }

  /** No two entities found in one file share a path, so each MERGE in the update pass
      addresses a different node. */
  lemma ScanPathsDistinct(sc: Scanner, lines: seq<string>, file: string, sha: string, ts: string)
    ensures DistinctPaths(Scan(sc, lines, file, sha, ts))
  {
    ScanPathsDistinctFrom(Hits(sc, lines), lines, 0, file, sha, ts);
  }

  /** The scanner used for a file, if any (github_neo_4_j_sync.py:256-266). */
  function ScannerFor(file: string): Option<Scanner> {
    match DetectLanguage(file)
    case Python => Some(PythonScanner)
    case JavaScript => Some(JsScanner)
    case TypeScript => Some(JsScanner)
    case Java => Some(JavaScanner)
    case _ => None
  }

  /** extract_basic_code_entities (github_neo_4_j_sync.py:246-266): the scanner for the
      file's language over `content.split('\n')`; no child entities for other languages. */
  function ExtractBasic(content: string, file: string, sha: string, ts: string): (r: seq<Entity>)
    ensures DetectLanguage(file) !in {Python, JavaScript, TypeScript, Java} ==> r == []
  {
    match ScannerFor(file)
    case Some(sc) => Scan(sc, Split(content, '\n'), file, sha, ts)
    case None => []
  }

  /** `e` is a child entity of `file`: no Module or GraphSnapshot, and at `file:<line>` for one of its `n` lines. */
  predicate UnderFile(e: Entity, file: string, n: nat) {
    && e.kind != Module && e.kind != GraphSnapshot
    && StartsWith(PathOf(e.attrs), file + ":")
    && exists j :: 0 <= j < n && PathOf(e.attrs) == LinePath(file, j)
  }

  predicate AllUnderFile(es: seq<Entity>, file: string, n: nat) {
    forall e :: e in es ==> UnderFile(e, file, n)
  }

  lemma ScanUnderFile(hits: seq<Option<Hit>>, lines: seq<string>, file: string, sha: string, ts: string)
    requires |hits| == |lines|
    ensures AllUnderFile(ScanFrom(hits, lines, 0, file, sha, ts), file, |lines|)
  {
    forall e | e in ScanFrom(hits, lines, 0, file, sha, ts) ensures UnderFile(e, file, |lines|) {
      var j :| 0 <= j < |lines| && BuiltAt(hits, lines, j, file, sha, ts, e);
      BuiltShape(hits, lines, j, file, sha, ts, e);
      assert LinePath(file, j)[..|file + ":"|] == file + ":";
    }
  }

  /** Every child entity of a file lives at `file:<line>` for a line of its text, so the
      prefix match of the removal pass reaches all of them; none is a Module. */
  lemma ChildrenUnderFile(content: string, file: string, sha: string, ts: string)
    ensures AllUnderFile(ExtractBasic(content, file, sha, ts), file, |Split(content, '\n')|)
  {
    if ScannerFor(file).Some? {
      ScanUnderFile(Hits(ScannerFor(file).value, Split(content, '\n')), Split(content, '\n'), file, sha, ts);
    }
  }

  /** The code excerpt limit of a Module (github_neo_4_j_sync.py:225). */
  const CODE_LIMIT: nat := 10000

  /** `content[:10000]`. */
  function Excerpt(text: string): string {
    if |text| <= CODE_LIMIT then text else text[..CODE_LIMIT]
  }

  /** `content.count('\n') + 1 if content else 0`. */
  function LineCount(text: string): nat {
    if text == "" then 0 else CountChar(text, '\n') + 1
  }

  /** The Module entity of a document (github_neo_4_j_sync.py:220-236). Its entity name is the
      path, but its attributes carry no `name`. */
  function ModuleEntity(d: Document, sha: string, ts: string): Entity {
    Entity(Module, d.path,
      map[Path := Str(d.path), Code := Str(Excerpt(d.text)), LanguageName := Str(DetectLanguage(d.path).Name()),
          Status := Str(ACTIVE), CommitSha := Str(sha), FileSha := Str(d.sha), LastUpdated := Str(ts),
          Version := Int(1), Size := Int(|d.text|), Lines := Int(LineCount(d.text))],
      [])
  }

  /** The Module's attributes: the excerpt is the first 10000 characters, `lines` is the number
      of lines the scanner walks (0 for an empty text), and there is no `name` attribute. */
  lemma ModuleEntitySpec(d: Document, sha: string, ts: string)
    ensures var m := ModuleEntity(d, sha, ts);
            && m.kind == Module && m.name == d.path && m.relations == []
            && PathOf(m.attrs) == d.path
            && Name !in m.attrs
            && m.attrs[Code].Str? && |m.attrs[Code].s| == Min(|d.text|, CODE_LIMIT)
            && m.attrs[Code].s == d.text[..|m.attrs[Code].s|]
            && m.attrs[Size] == Int(|d.text|)
            && m.attrs[Lines] == Int(if d.text == "" then 0 else |Split(d.text, '\n')|)
            && m.attrs[LanguageName] == Str(DetectLanguage(d.path).Name())
  {
    ModuleCode(d, sha, ts);
    ModuleLines(d, sha, ts);
  }

  lemma ModuleCode(d: Document, sha: string, ts: string)
    ensures var m := ModuleEntity(d, sha, ts);
            m.attrs[Code].Str? && |m.attrs[Code].s| == Min(|d.text|, CODE_LIMIT) && m.attrs[Code].s == d.text[..|m.attrs[Code].s|]
  {
  }

  lemma ModuleLines(d: Document, sha: string, ts: string)
    ensures ModuleEntity(d, sha, ts).attrs[Lines] == Int(if d.text == "" then 0 else |Split(d.text, '\n')|)
  {
    SplitCount(d.text, '\n');
  }

  /** extract_entities_with_llm (github_neo_4_j_sync.py:201-243): for each document that
      passes is_code_file, its Module followed by its child entities. */
  function ExtractEntities(docs: seq<Document>, sha: string, ts: string): seq<Entity> {
    if |docs| == 0 then []
    else
      DocumentEntities(docs[0], sha, ts) + ExtractEntities(docs[1..], sha, ts)
  }

  /** The entities of one document: none unless it passes is_code_file. */
  function DocumentEntities(d: Document, sha: string, ts: string): seq<Entity> {
    if IsCodeFile(d.path) then [ModuleEntity(d, sha, ts)] + ExtractBasic(d.text, d.path, sha, ts) else []
  }

  /** The paths of the Module entities in a list, in order. */
  function ModulePaths(ents: seq<Entity>): seq<string> {
    if |ents| == 0 then []
    else (if ents[0].kind == Module then [PathOf(ents[0].attrs)] else []) + ModulePaths(ents[1..])
  }

  /** The paths of the documents that pass is_code_file, in order. */
  function CodePaths(docs: seq<Document>): seq<string> {
    if |docs| == 0 then []
    else (if IsCodeFile(docs[0].path) then [docs[0].path] else []) + CodePaths(docs[1..])
  }

  lemma {:induction false} ModulePathsAppend(xs: seq<Entity>, ys: seq<Entity>)
    ensures ModulePaths(xs + ys) == ModulePaths(xs) + ModulePaths(ys)
  {
    if |xs| > 0 {
      assert (xs + ys)[1..] == xs[1..] + ys;
      ModulePathsAppend(xs[1..], ys);
    } else {
      assert xs + ys == ys;
    }
  }

  lemma {:induction false} NoModulePaths(ents: seq<Entity>, file: string, n: nat)
    requires AllUnderFile(ents, file, n)
    ensures ModulePaths(ents) == []
  {
    if |ents| > 0 {
      assert ents[0] in ents;
      assert forall e :: e in ents[1..] ==> e in ents;
      NoModulePaths(ents[1..], file, n);
    }
  }

  /** A document contributes exactly its own Module, if it passes is_code_file. */
  lemma DocumentModulePaths(d: Document, sha: string, ts: string)
    ensures ModulePaths(DocumentEntities(d, sha, ts)) == if IsCodeFile(d.path) then [d.path] else []
  {
    if IsCodeFile(d.path) {
      var kids := ExtractBasic(d.text, d.path, sha, ts);
      ChildrenUnderFile(d.text, d.path, sha, ts);
      NoModulePaths(kids, d.path, |Split(d.text, '\n')|);
      ModulePathsAppend([ModuleEntity(d, sha, ts)], kids);
      ModuleEntitySpec(d, sha, ts);
    }
  }

  /** Exactly one Module per document passing is_code_file, in document order. */
  lemma {:induction false} OneModulePerCodeDocument(docs: seq<Document>, sha: string, ts: string)
    ensures ModulePaths(ExtractEntities(docs, sha, ts)) == CodePaths(docs)
  {
    if |docs| > 0 {
      OneModulePerCodeDocument(docs[1..], sha, ts);
      DocumentModulePaths(docs[0], sha, ts);
      ModulePathsAppend(DocumentEntities(docs[0], sha, ts), ExtractEntities(docs[1..], sha, ts));
    }
  }

  /** Every extracted entity has a non-empty path and is no GraphSnapshot, and no Module has a
      `name` attribute: the update keys each one on its path, never writes a snapshot node and
      never gives a Module node a name. */
  /** Every relation of an extracted entity targets a Module or a Class, never a GraphSnapshot. */
  lemma {:induction false} ExtractedTargets(docs: seq<Document>, sha: string, ts: string)
    ensures TargetsWithin(ExtractEntities(docs, sha, ts), {Class})
  {
    if |docs| > 0 {
      var d := docs[0];
      ExtractedTargets(docs[1..], sha, ts);
      var ms := DocumentEntities(d, sha, ts);
      var rest := ExtractEntities(docs[1..], sha, ts);
      if IsCodeFile(d.path) && ScannerFor(d.path).Some? {
        ScanTargets(ScannerFor(d.path).value, Split(d.text, '\n'), d.path, sha, ts);
      }
      assert TargetsWithin(ms, {Class});
      forall e | e in ExtractEntities(docs, sha, ts) ensures e in ms || e in rest {
      }
    }
  }

  lemma {:induction false} ExtractedShape(docs: seq<Document>, sha: string, ts: string)
    ensures forall e :: e in ExtractEntities(docs, sha, ts) ==>
              e.kind != GraphSnapshot && PathOf(e.attrs) != "" && (e.kind == Module ==> Name !in e.attrs)
  {
    if |docs| > 0 {
      var d := docs[0];
      ExtractedShape(docs[1..], sha, ts);
      if IsCodeFile(d.path) {
        CodeFileNonEmpty(d.path);
        ModuleEntitySpec(d, sha, ts);
        ChildrenUnderFile(d.text, d.path, sha, ts);
        forall e | e in ExtractBasic(d.text, d.path, sha, ts) ensures PathOf(e.attrs) != "" && e.kind != Module {
          assert UnderFile(e, d.path, |Split(d.text, '\n')|);
        }
      }
    }
  }
}
