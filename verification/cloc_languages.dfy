/** The language registry of the lines-of-code counter and the detector that
    maps a path (plus, for headers, a prefix of the file) to a table entry. */
module ClocLanguages {
  import opened Base
  import opened ClocScanner

  /** Language identifiers of the public header. */
  const LANG_NONE: nat := 0
  const LANG_C: nat := 1
  const LANG_CPP: nat := 2
  const LANG_PYTHON: nat := 3
  const LANG_JAVA: nat := 4
  const LANG_GO: nat := 5
  const LANG_RUST: nat := 6
  const LANG_JS: nat := 7

  /** How much of a header the detector reads when sniffing for C++. */
  const MAX_EXAMINE_SIZE: nat := 4096

  /** One row of the table; a missing name is the NULL of the sentinel row. */
  datatype LangDef = LangDef(name: Option<string>, extensions: seq<string>, syntax: Syntax, id: nat)

  const CStyle := Syntax("//", "/*", "*/")

  /** The table, in source order, closed by the sentinel row. */
  const Languages: seq<LangDef> := [
    LangDef(Some("C"), [".c", ".h"], CStyle, LANG_C),
    LangDef(Some("C++"), [".cpp", ".hpp", ".cc", ".hxx", ".cxx"], CStyle, LANG_CPP),
    LangDef(Some("Python"), [".py", ".pyw"], Syntax("#", "\"\"\"", "\"\"\""), LANG_PYTHON),
    LangDef(Some("Java"), [".java"], CStyle, LANG_JAVA),
    LangDef(Some("Go"), [".go"], CStyle, LANG_GO),
    LangDef(Some("Rust"), [".rs"], CStyle, LANG_RUST),
    LangDef(Some("JavaScript"), [".js", ".jsx", ".mjs"], CStyle, LANG_JS),
    LangDef(None, [], Syntax("", "", ""), LANG_NONE)
  ]

  /** Index of the sentinel row. */
  const SENTINEL: nat := 7

  /** Markers whose presence in a header selects C++. */
  const CppKeywords: seq<string> := [
    "class", "namespace", "template", "typename", "operator",
    "virtual", "public:", "private:", "protected:", "friend"
  ]

  /** Every real row has a name, well-formed tokens and the identifier one
      above its index; the sentinel row alone has no name. */
  lemma TableShape()
    ensures |Languages| == SENTINEL + 1 && Languages[SENTINEL].name.None?
    ensures forall i | 0 <= i < SENTINEL ::
      Languages[i].name.Some? && WellFormed(Languages[i].syntax) && Languages[i].id == i + 1
  {
    assert ValidToken("//") && ValidToken("/*") && ValidToken("*/");
    assert ValidToken("#") && ValidToken("\"\"\"");
  }

  /** The comment and string tokens of real row `i`, which the line
      counter accepts. */
  function SyntaxOf(i: nat): (syn: Syntax)
    requires i < SENTINEL
    ensures syn == Languages[i].syntax && WellFormed(syn)
  {
    TableShape();
    Languages[i].syntax
  }

  /** Distinct rows carry distinct names, so matching rows by name is
      matching them by identity. */
  lemma NamesDistinct()
    ensures forall i, j | 0 <= i < j < |Languages| :: Languages[i].name != Languages[j].name
  {
  }

  /** No extension is listed by two rows. */
  lemma ExtensionsDisjoint(ext: string, i: nat, j: nat)
    requires i < SENTINEL && j < SENTINEL
    requires ext in Languages[i].extensions && ext in Languages[j].extensions
    ensures i == j
  {
    if i == 0 {
      assert ext == ".c" || ext == ".h";
    } else if i == 1 {
      assert ext == ".cpp" || ext == ".hpp" || ext == ".cc" || ext == ".hxx" || ext == ".cxx";
    } else if i == 2 {
      assert ext == ".py" || ext == ".pyw";
    } else if i == 6 {
      assert ext == ".js" || ext == ".jsx" || ext == ".mjs";
    }
  }

  /** `strrchr(path, '.')`: the position of the last dot. */
  function LastDot(path: string): (r: Option<nat>)
    ensures r.None? <==> forall i | 0 <= i < |path| :: path[i] != '.'
    ensures r.Some? ==> r.value < |path| && path[r.value] == '.'
    ensures r.Some? ==> forall j | r.value < j < |path| :: path[j] != '.'
  {
    if |path| == 0 then None
    else if path[|path| - 1] == '.' then Some(|path| - 1)
    else LastDot(path[..|path| - 1])
  }

  /** The extension: the suffix starting at the last dot, if there is one. */
  function Extension(path: string): Option<string> {
    match LastDot(path)
    case None => None
    case Some(i) => Some(path[i..])
  }

  /** The outer loop of `detect_language`: the first row, from `i` up to the
      sentinel, that lists `ext`. */
  function FindExtension(ext: string, i: nat): (r: Option<nat>)
    requires i <= SENTINEL
    ensures r.Some? ==> i <= r.value < SENTINEL && ext in Languages[r.value].extensions
    ensures r.Some? ==> forall k | i <= k < r.value :: ext !in Languages[k].extensions
    ensures r.None? ==> forall k | i <= k < SENTINEL :: ext !in Languages[k].extensions
    decreases SENTINEL - i
  {
    if Languages[i].name.None? then None
    else if ext in Languages[i].extensions then Some(i)
    else FindExtension(ext, i + 1)
  }

  /** What `fread` leaves in the probe buffer: at most MAX_EXAMINE_SIZE bytes. */
  function Probe(content: string): (r: string)
    ensures |r| <= MAX_EXAMINE_SIZE && |r| <= |content| && r == content[..|r|]
    ensures |content| <= MAX_EXAMINE_SIZE ==> r == content
    ensures |r| == Min(|content|, MAX_EXAMINE_SIZE)
  {
    content[..Min(|content|, MAX_EXAMINE_SIZE)]
  }

  /** The keyword loop of `is_cpp_file` from keyword `k` on; `strstr` stops
      at the first NUL, hence the search runs over the C string. */
  predicate KeywordFrom(s: string, k: nat)
    requires k <= |CppKeywords|
    decreases |CppKeywords| - k
  {
    k < |CppKeywords| && (Contains(CString(s), CppKeywords[k]) || KeywordFrom(s, k + 1))
  }

  predicate IsCppFile(probe: string) {
    KeywordFrom(probe, 0)
  }

  /** Reference reading of the sniffing rule: some keyword occurs in the
      probe before its first NUL. */
  predicate HasCppKeyword(probe: string) {
    exists k | 0 <= k < |CppKeywords| :: Contains(CString(probe), CppKeywords[k])
  }

  lemma {:induction false} KeywordFromSpec(s: string, k: nat)
    requires k <= |CppKeywords|
    ensures KeywordFrom(s, k) <==> exists j | k <= j < |CppKeywords| :: Contains(CString(s), CppKeywords[j])
    decreases |CppKeywords| - k
  {
    if k < |CppKeywords| {
      KeywordFromSpec(s, k + 1);
    }
  }

  lemma IsCppFileSpec(probe: string)
    ensures IsCppFile(probe) <==> HasCppKeyword(probe)
  {
    KeywordFromSpec(probe, 0);
  }

  /** `detect_language`: the row a path resolves to. `file` is the file's
      content, or None when it cannot be opened. A header is sniffed: C++ if
      the probe holds a keyword, C otherwise or when the open fails. */
  function DetectLanguage(path: string, file: Option<string>): (r: Option<nat>)
    ensures r.Some? ==> r.value < SENTINEL
    ensures LastDot(path).None? ==> r.None?
  {
    match Extension(path)
    case None => None
    case Some(ext) =>
      match FindExtension(ext, 0)
      case None => None
      case Some(i) =>
        if ext == ".h" then
          if file.None? then Some(0)
          else if IsCppFile(Probe(file.value)) then Some(1)
          else Some(0)
        else Some(i)
  }

  /** For every extension other than ".h", the path resolves to a row iff
      that row lists the extension; so the first match in table order is the
      only one. */
  lemma DetectByExtension(path: string, file: Option<string>, i: nat)
    requires Extension(path).Some? && Extension(path).value != ".h"
    ensures DetectLanguage(path, file) == Some(i)
      <==> i < SENTINEL && Extension(path).value in Languages[i].extensions
  {
    var ext := Extension(path).value;
    var found := FindExtension(ext, 0);
    if i < SENTINEL && ext in Languages[i].extensions {
      assert found.Some?;
      ExtensionsDisjoint(ext, i, found.value);
    }
  }

  /** An extension no row lists resolves to no language. */
  lemma DetectUnknown(path: string, file: Option<string>)
    requires Extension(path).Some?
    requires forall i | 0 <= i < SENTINEL :: Extension(path).value !in Languages[i].extensions
    ensures DetectLanguage(path, file).None?
  {
  }

  /** A ".h" path resolves to C++ iff its file opens and the first 4096
      bytes, up to the first NUL, contain one of the keywords; else to C. */
  lemma DetectHeader(path: string, file: Option<string>)
    requires Extension(path) == Some(".h")
    ensures DetectLanguage(path, file)
      == Some(if file.Some? && HasCppKeyword(Probe(file.value)) then 1 else 0)
  {
    assert ".h" in Languages[0].extensions;
    if file.Some? {
      IsCppFileSpec(Probe(file.value));
    }
  }

  /** The identifier the aggregator uses to look the row up again: it indexes
      the table by identifier, which is one past the detected row, so C files
      are filed under "C++" and JavaScript under the nameless sentinel. */
  lemma AggregateKeyIsOffByOne(i: nat)
    requires i < SENTINEL
    ensures Languages[i].id == i + 1 && Languages[Languages[i].id].name == Languages[i + 1].name
    ensures i == 0 ==> Languages[Languages[i].id].name == Some("C++")
    ensures i == 6 ==> Languages[Languages[i].id].name.None?
  {
  }

  /** The last dot is the one with no dot after it. */
  lemma LastDotAt(path: string, i: nat)
    requires i < |path| && path[i] == '.'
    requires forall j | i < j < |path| :: path[j] != '.'
    ensures LastDot(path) == Some(i) && Extension(path) == Some(path[i..])
  {
  }

  /** Worked cases of the detector: a source file, a file in a dotted
      directory, a path without a dot and an unknown extension. */
  lemma DetectCSource()
    ensures DetectLanguage("src/main.c", None) == Some(0)
  {
    LastDotAt("src/main.c", 8);
    assert "src/main.c"[8..] == ".c";
  }

  lemma DetectDottedDirectory()
    ensures DetectLanguage("a.b/tool.py", None) == Some(2)
  {
    LastDotAt("a.b/tool.py", 8);
    assert "a.b/tool.py"[8..] == ".py";
  }

  lemma DetectNoDot()
    ensures DetectLanguage("Makefile", None) == None
  {
    assert forall i | 0 <= i < |"Makefile"| :: "Makefile"[i] != '.';
  }

  lemma DetectUnknownExtension()
    ensures DetectLanguage("pkg.tar.gz", None) == None
  {
    LastDotAt("pkg.tar.gz", 7);
    assert "pkg.tar.gz"[7..] == ".gz";
    DetectUnknown("pkg.tar.gz", None);
  }

  /** A short header without NUL bytes that holds a keyword is C++. */
  lemma HeaderKeywordIsCpp(path: string, content: string, k: nat, p: nat)
    requires Extension(path) == Some(".h") && k < |CppKeywords|
    requires |content| <= MAX_EXAMINE_SIZE && forall i | 0 <= i < |content| :: content[i] != '\0'
    requires OccursAt(content, p, CppKeywords[k])
    ensures DetectLanguage(path, Some(content)) == Some(1)
  {
    DetectHeader(path, Some(content));
    CStringNoNul(content);
    assert Contains(CString(Probe(content)), CppKeywords[k]);
  }

  /** A header with a class declaration is C++. */
  lemma ClassHeaderIsCpp()
    ensures DetectLanguage("x.h", Some("class A;")) == Some(1)
  {
    LastDotAt("x.h", 1);
    assert "x.h"[1..] == ".h";
    assert "class A;"[0..5] == CppKeywords[0];
    HeaderKeywordIsCpp("x.h", "class A;", 0, 0);
  }

  /** A header too short to hold any keyword, or one that cannot be opened,
      is C. */
  lemma PlainHeaderIsC()
    ensures DetectLanguage("x.h", Some("int;")) == Some(0)
    ensures DetectLanguage("x.h", None) == Some(0)
  {
    LastDotAt("x.h", 1);
    assert "x.h"[1..] == ".h";
    ShortHeaderIsC("x.h", "int;");
    DetectHeader("x.h", None);
  }

  /** A header shorter than every keyword is C. */
  lemma ShortHeaderIsC(path: string, content: string)
    requires Extension(path) == Some(".h") && |content| < 5
    ensures DetectLanguage(path, Some(content)) == Some(0)
  {
    DetectHeader(path, Some(content));
    var probe := CString(Probe(content));
    forall k | 0 <= k < |CppKeywords| ensures !Contains(probe, CppKeywords[k]) {
      assert |CppKeywords[k]| >= 5;
    }
  }
}
