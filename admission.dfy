/** The file admission filter of RepoProcessor (`_is_valid_file`,
    `_is_likely_useful_file`), the extension splitter it relies on
    (`os.path.splitext` on '/'-separated paths) and the comment marker chosen
    per extension (`_get_comment_syntax`). Paths are relative to the
    repository root and use '/' as the separator. */
module Admission {
  import opened TextOps

  const SupportedExtensions: seq<string> :=
    [".py", ".js", ".jsx", ".ts", ".tsx", ".c", ".cpp", ".h", ".hpp"]

  /** The extensions `_clean_file_content` sends to the JavaScript reducer. */
  const JsFamily: seq<string> := [".js", ".jsx", ".ts", ".tsx"]

  /** The extensions `_clean_file_content` sends to the C/C++ reducer. */
  const CFamily: seq<string> := [".c", ".cpp", ".h", ".hpp"]

  const ExcludedDirs: seq<string> :=
    ["docs", "examples", "tests", "test", "__pycache__", "scripts", "utils",
     "benchmarks", "node_modules", "env", "venv", ".venv"]

  const UtilityOrConfigFiles: seq<string> := ["hubconf.py", "setup.py", "package-lock.json"]

  const WorkflowOrDocFiles: seq<string> := ["stale.py", "gen-card-", "write_model_card"]

  /** Some '/'-separated part of the path starts with a dot. */
  predicate HasDotSegment(rel: string) {
    exists part :: part in Split(rel, '/') && StartsWith(part, ".")
  }

  /** The excluded-directory rule as the source writes it: "/d/" occurs in
      the path, or the path starts with "d/". */
  predicate UnderExcludedDir(rel: string) {
    exists d :: d in ExcludedDirs && DirRule(rel, d)
  }

  /** One excluded name's test: `sep + d + sep in rel or rel.startswith(d + sep)`. */
  predicate DirRule(rel: string, d: string) {
    Contains(rel, "/" + d + "/") || StartsWith(rel, d + "/")
  }

  /** Some part before the last one (a directory on the path) is exactly d. */
  predicate HasDirPart(rel: string, d: string) {
    exists i :: 0 <= i < |Split(rel, '/')| - 1 && Split(rel, '/')[i] == d
  }

  /** One of the names occurs anywhere in the path as a substring. */
  predicate MentionsAny(rel: string, names: seq<string>) {
    exists f :: f in names && Contains(rel, f)
  }

  predicate IsLikelyUsefulFile(rel: string) {
    && !HasDotSegment(rel)
    && !Contains(Lower(rel), "test")
    && !UnderExcludedDir(rel)
    && !MentionsAny(rel, UtilityOrConfigFiles)
    && !MentionsAny(rel, WorkflowOrDocFiles)
  }

  predicate HasSupportedExtension(path: string) {
    exists e :: e in SupportedExtensions && EndsWith(path, e)
  }

  /** Whether an entry is admitted into the digest. */
  predicate IsValidFile(path: string) {
    !EndsWith(path, "/") && HasSupportedExtension(path) && IsLikelyUsefulFile(path)
  }

  predicate AllDots(s: string) {
    forall i :: 0 <= i < |s| ==> s[i] == '.'
  }

  /** The extension part of `os.path.splitext`: from the last dot of the last
      path part, unless that part has only dots before it. */
  function Ext(path: string): (ext: string)
    ensures ext == "" || (ext[0] == '.' && EndsWith(path, ext) && '/' !in ext)
    ensures ext != "" ==> '.' !in ext[1..]
    ensures ext != "" ==> exists i :: LastIndex(path, '/') < i < |path| - |ext| && path[i] != '.'
  {
    var sep := LastIndex(path, '/');
    var dot := LastIndex(path, '.');
    if dot > sep && !AllDots(path[sep + 1..dot]) then
      SuffixFromDot(path, sep, dot);
      NonDotBeforeDot(path, sep, dot);
      path[dot..]
    else ""
  }

  /** The text from the last dot on, when that dot follows the last '/', is
      a dot and then neither dots nor '/'. */
  lemma SuffixFromDot(path: string, sep: int, dot: int)
    requires sep == LastIndex(path, '/') && dot == LastIndex(path, '.') && dot > sep
    ensures var ext := path[dot..];
      && ext[0] == '.' && EndsWith(path, ext) && '/' !in ext && '.' !in ext[1..]
  {
    var ext := path[dot..];
    assert path[|path| - |ext|..] == ext;
    assert forall j :: 0 <= j < |ext| ==> ext[j] == path[dot + j];
  }

  lemma NonDotBeforeDot(path: string, sep: int, dot: int)
    requires -1 <= sep < dot <= |path| && !AllDots(path[sep + 1..dot])
    ensures exists i :: sep < i < dot && path[i] != '.'
  {
    var i :| 0 <= i < |path[sep + 1..dot]| && path[sep + 1..dot][i] != '.';
    assert path[sep + 1 + i] != '.';
  }

  /** A name whose last part has something other than dots before a final
      '.' followed by no further dot or '/' has that suffix as its
      extension. */
  lemma ExtOfStem(stem: string, x: string, i: nat)
    requires '.' !in x && '/' !in x
    requires LastIndex(stem, '/') < i < |stem| && stem[i] != '.'
    ensures Ext(stem + "." + x) == "." + x
  {
    var path := stem + ("." + x);
    assert path == stem + "." + x;
    LastDotBeforeTail(stem, x);
    LastIndexKept(stem, "." + x, '/');
    assert path[i] == stem[i];
    ExtAtDot(path, |stem|, i);
    assert path[|stem|..] == "." + x;
  }

  lemma LastDotBeforeTail(stem: string, x: string)
    requires '.' !in x
    ensures LastIndex(stem + ("." + x), '.') == |stem|
  {
    var path := stem + ("." + x);
    assert path[|stem| + 1..] == x;
    forall j | |stem| < j < |path| ensures path[j] != '.' {
      var k := j - |stem| - 1;
      assert path[j] == path[|stem| + 1..][k] == x[k];
      assert x[k] in x;
    }
    LastIndexIs(path, '.', |stem|);
  }

  /** The extension starts at the last dot when a character other than a dot
      lies between the last '/' and that dot. */
  lemma ExtAtDot(path: string, dot: nat, i: nat)
    requires dot == LastIndex(path, '.')
    requires LastIndex(path, '/') < i < dot && path[i] != '.'
    ensures Ext(path) == path[dot..]
  {
    var sep := LastIndex(path, '/');
    assert path[sep + 1..dot][i - sep - 1] == path[i];
  }

  /** Appending text without c leaves the last c where it was. */
  lemma {:induction false} LastIndexKept(s: string, t: string, c: char)
    requires c !in t
    ensures LastIndex(s + t, c) == LastIndex(s, c)
    decreases |t|
  {
    if |t| > 0 {
      var u := t[..|t| - 1];
      assert (s + t)[..|s + t| - 1] == s + u;
      assert (s + t)[|s + t| - 1] == t[|t| - 1];
      LastIndexKept(s, u, c);
    } else {
      assert s + t == s;
    }
  }

  /** A last part made of dots and a dot-free tail has no extension:
      `splitext` treats a leading dot as part of the name. */
  lemma NoExtAfterLeadingDots(q: string, dots: string, x: string)
    requires AllDots(dots) && '.' !in x && '/' !in x
    ensures Ext(q + "/" + dots + x) == ""
    ensures Ext(dots + x) == ""
  {
    NoExtAfterDots(q + "/", dots, x);
    NoExtAfterDots("", dots, x);
    assert "" + dots + x == dots + x;
  }

  lemma NoExtAfterDots(q: string, dots: string, x: string)
    requires q == "" || q[|q| - 1] == '/'
    requires AllDots(dots) && '.' !in x && '/' !in x
    ensures Ext(q + dots + x) == ""
  {
    var path := q + dots + x;
    var sep, dot := LastIndex(path, '/'), LastIndex(path, '.');
    assert forall j :: |q| + |dots| <= j < |path| ==> path[j] == x[j - |q| - |dots|];
    assert forall j :: |q| <= j < |q| + |dots| ==> path[j] == dots[j - |q|];
    if q != "" {
      assert path[|q| - 1] == '/';
    }
    assert sep == |q| - 1;
    if dot > sep {
      assert forall j :: sep < j < dot ==> path[j] == '.';
    }
  }

  /** The marker written before " File: " in a digest section. */
  function CommentSyntax(path: string): string {
    var ext := Ext(path);
    if ext in [".py"] then "#"
    else if ext in JsFamily + CFamily then "//"
    else ""
  }

  // ---------------------------------------------------------------------
  // The dot-segment rule

  lemma AbsentFirstChar(s: string, p: string)
    requires |p| > 0 && p[0] !in s
    ensures !Contains(s, p)
  {
  }

  /** A part starts with a dot exactly when the path starts with a dot or
      contains "/.". */
  lemma {:induction false} DotSegmentIff(rel: string)
    ensures HasDotSegment(rel) <==> StartsWith(rel, ".") || Contains(rel, "/.")
    decreases |rel|
  {
    var parts := Split(rel, '/');
    if '/' !in rel {
      assert parts == [rel];
      AbsentFirstChar(rel, "/.");
    } else {
      var k := FirstIndex(rel, '/');
      var head, tail := rel[..k], rel[k + 1..];
      assert parts == [head] + Split(tail, '/');
      ContainsAfterFirstSep(rel, '/', ".");
      assert ['/'] + "." == "/.";
      DotSegmentIff(tail);
      assert StartsWith(head, ".") <==> StartsWith(rel, ".") by {
        if k > 0 { assert head[0] == rel[0]; }
      }
      if HasDotSegment(tail) {
        var part :| part in Split(tail, '/') && StartsWith(part, ".");
        assert part in parts;
      }
      if HasDotSegment(rel) {
        var part :| part in parts && StartsWith(part, ".");
        assert part == head || part in Split(tail, '/');
      }
      if StartsWith(head, ".") {
        assert head in parts;
      }
    }
  }

  // ---------------------------------------------------------------------
  // The excluded-directory rule

  lemma StartsWithFirstPart(rel: string, d: string)
    requires '/' !in d && '/' in rel
    ensures StartsWith(rel, d + "/") <==> rel[..FirstIndex(rel, '/')] == d
  {
    var k := FirstIndex(rel, '/');
    if StartsWith(rel, d + "/") {
      assert rel[..|d|] == (d + "/")[..|d|] == d;
      assert rel[|d|] == '/';
      assert k == |d|;
    }
    if rel[..k] == d {
      assert rel[..|d| + 1] == rel[..k] + [rel[k]];
    }
  }

  lemma DirRuleStep(rel: string, d: string)
    requires '/' !in d && '/' in rel
    ensures var k := FirstIndex(rel, '/');
      DirRule(rel, d) <==> rel[..k] == d || DirRule(rel[k + 1..], d)
  {
    assert "/" + d + "/" == ['/'] + (d + "/");
    ContainsAfterFirstSep(rel, '/', d + "/");
    StartsWithFirstPart(rel, d);
  }

  lemma DirPartStep(rel: string, d: string)
    requires '/' in rel
    ensures var k := FirstIndex(rel, '/');
      HasDirPart(rel, d) <==> rel[..k] == d || HasDirPart(rel[k + 1..], d)
  {
    var k := FirstIndex(rel, '/');
    var parts, rest := Split(rel, '/'), Split(rel[k + 1..], '/');
    assert parts == [rel[..k]] + rest;
    PartBeforeLastCons(rel[..k], rest, d);
  }

  /** A name is a part before the last of h followed by rest exactly when it
      is h or a part before the last of rest. */
  lemma PartBeforeLastCons(h: string, rest: seq<string>, d: string)
    requires |rest| >= 1
    ensures (exists i :: 0 <= i < |[h] + rest| - 1 && ([h] + rest)[i] == d)
        <==> h == d || exists j :: 0 <= j < |rest| - 1 && rest[j] == d
  {
    var parts := [h] + rest;
    if exists j :: 0 <= j < |rest| - 1 && rest[j] == d {
      var j :| 0 <= j < |rest| - 1 && rest[j] == d;
      assert parts[j + 1] == d;
    }
    if exists i :: 0 <= i < |parts| - 1 && parts[i] == d {
      var i :| 0 <= i < |parts| - 1 && parts[i] == d;
      if i > 0 {
        assert rest[i - 1] == d;
      }
    }
    if h == d {
      assert parts[0] == d;
    }
  }

  /** "/d/" in rel or rel starting with "d/" holds exactly when some part
      other than the last one (the file name) is d itself: the match is by
      whole directory name, never by a piece of a longer name. */
  lemma {:induction false} ExcludedRuleIsSegmentMatch(rel: string, d: string)
    requires '/' !in d
    ensures DirRule(rel, d) <==> HasDirPart(rel, d)
    decreases |rel|
  {
    if '/' in rel {
      var k := FirstIndex(rel, '/');
      DirRuleStep(rel, d);
      DirPartStep(rel, d);
      ExcludedRuleIsSegmentMatch(rel[k + 1..], d);
    } else {
      assert Split(rel, '/') == [rel];
      AbsentFirstChar(rel, "/" + d + "/");
      StartsWithKeepsChar(rel, d + "/", '/');
    }
  }

  lemma ExcludedHaveNoSlash()
    ensures forall d :: d in ExcludedDirs ==> '/' !in d
  {
  }

  lemma AnyDirRuleIff(rel: string, names: seq<string>)
    requires forall d :: d in names ==> '/' !in d
    ensures (exists d :: d in names && DirRule(rel, d))
        <==> exists i :: 0 <= i < |Split(rel, '/')| - 1 && Split(rel, '/')[i] in names
  {
    var parts := Split(rel, '/');
    if exists i :: 0 <= i < |parts| - 1 && parts[i] in names {
      var i :| 0 <= i < |parts| - 1 && parts[i] in names;
      assert HasDirPart(rel, parts[i]);
      ExcludedRuleIsSegmentMatch(rel, parts[i]);
    }
    if exists d :: d in names && DirRule(rel, d) {
      var d :| d in names && DirRule(rel, d);
      ExcludedRuleIsSegmentMatch(rel, d);
      var i :| 0 <= i < |parts| - 1 && parts[i] == d;
      assert 0 <= i < |Split(rel, '/')| - 1 && Split(rel, '/')[i] in names;
    }
  }

  /** The excluded-directory rule over the whole list, stated by parts. */
  lemma UnderExcludedDirIff(rel: string)
    ensures UnderExcludedDir(rel)
        <==> exists i :: 0 <= i < |Split(rel, '/')| - 1 && Split(rel, '/')[i] in ExcludedDirs
  {
    ExcludedHaveNoSlash();
    AnyDirRuleIff(rel, ExcludedDirs);
  }

  // ---------------------------------------------------------------------
  // The filter as a whole

  lemma SupportedNotSlash(path: string)
    requires HasSupportedExtension(path)
    ensures !EndsWith(path, "/")
  {
    var e :| e in SupportedExtensions && EndsWith(path, e);
    SupportedAreSimple();
    assert path[|path| - 1] == e[|e| - 1];
  }

  lemma DotPartsIff(path: string)
    ensures HasDotSegment(path)
        <==> exists i :: 0 <= i < |Split(path, '/')| && StartsWith(Split(path, '/')[i], ".")
  {
    var parts := Split(path, '/');
    if HasDotSegment(path) {
      var part :| part in parts && StartsWith(part, ".");
      var i :| 0 <= i < |parts| && parts[i] == part;
      assert StartsWith(Split(path, '/')[i], ".");
    }
  }

  lemma MentionsConcat(path: string, a: seq<string>, b: seq<string>)
    ensures MentionsAny(path, a + b) <==> MentionsAny(path, a) || MentionsAny(path, b)
  {
    if MentionsAny(path, a + b) {
      var f :| f in a + b && Contains(path, f);
      assert f in a || f in b;
    }
    if MentionsAny(path, a) {
      var f :| f in a && Contains(path, f);
      assert f in a + b;
    }
    if MentionsAny(path, b) {
      var f :| f in b && Contains(path, f);
      assert f in a + b;
    }
  }

  /** The admission filter restated by path parts: an allowed extension, no
      part starting with a dot, no "test" anywhere in the lowercased path, no
      directory part in the excluded list, and no boilerplate name. */
  lemma AdmissionByParts(path: string)
    ensures IsValidFile(path) <==>
      var parts := Split(path, '/');
      && HasSupportedExtension(path)
      && (forall i :: 0 <= i < |parts| ==> !StartsWith(parts[i], "."))
      && !Contains(Lower(path), "test")
      && (forall i :: 0 <= i < |parts| - 1 ==> parts[i] !in ExcludedDirs)
      && !MentionsAny(path, UtilityOrConfigFiles + WorkflowOrDocFiles)
  {
    UnderExcludedDirIff(path);
    DotPartsIff(path);
    MentionsConcat(path, UtilityOrConfigFiles, WorkflowOrDocFiles);
    if HasSupportedExtension(path) {
      SupportedNotSlash(path);
    }
  }

  /** The "test" rule is a plain substring test: "latest.py" is rejected. */
  lemma LatestIsRejected()
    ensures !IsValidFile("latest.py")
  {
    var low := Lower("latest.py");
    assert low[2..6] == "test";
    assert OccursAt(low, "test", 2);
  }

  /** "mydocs" only contains the excluded name "docs": the path is admitted,
      while the same file under a directory named "docs" is not. */
  lemma PartOfLongerNameIsNotExcluded()
    ensures !UnderExcludedDir("mydocs/a.py") && IsValidFile("mydocs/a.py")
    ensures UnderExcludedDir("src/docs/a.py") && !IsValidFile("src/docs/a.py")
  {
    MydocsIsAdmitted();
    DocsIsExcluded();
  }

  lemma DocsIsExcluded()
    ensures UnderExcludedDir("src/docs/a.py") && !IsValidFile("src/docs/a.py")
  {
    var q := "src/docs/a.py";
    assert q[3..9] == "/docs/" == "/" + "docs" + "/";
    assert OccursAt(q, "/docs/", 3);
    assert DirRule(q, "docs");
    assert "docs" in ExcludedDirs;
  }

  lemma MydocsIsAdmitted()
    ensures !UnderExcludedDir("mydocs/a.py") && IsValidFile("mydocs/a.py")
  {
    MydocsNoDot();
    MydocsNoTest();
    MydocsNotExcluded();
    MydocsNames();
    assert EndsWith("mydocs/a.py", ".py");
  }

  lemma MydocsNoDot()
    ensures !HasDotSegment("mydocs/a.py")
  {
    var p := "mydocs/a.py";
    assert p[6..8] == "/a";
    FirstCharOnlyAt(p, "/.", 6);
    assert p[..1] == "m";
    NoDotSegment(p);
  }

  lemma NoDotSegment(p: string)
    requires !StartsWith(p, ".") && !Contains(p, "/.")
    ensures !HasDotSegment(p)
  {
    DotSegmentIff(p);
  }

  lemma MydocsNoTest()
    ensures !Contains(Lower("mydocs/a.py"), "test")
  {
    var p := "mydocs/a.py";
    assert forall i :: 0 <= i < |p| ==> Lower(p)[i] != 't';
    AbsentFirstChar(Lower(p), "test");
  }

  lemma MydocsNotExcluded()
    ensures !UnderExcludedDir("mydocs/a.py")
  {
    MydocsPartsAllowed();
    NoExcludedPart("mydocs/a.py");
  }

  lemma MydocsPartsAllowed()
    ensures forall i :: 0 <= i < |Split("mydocs/a.py", '/')| - 1 ==>
      Split("mydocs/a.py", '/')[i] !in ExcludedDirs
  {
    MydocsParts();
  }

  lemma MydocsParts()
    ensures Split("mydocs/a.py", '/') == ["mydocs", "a.py"]
    ensures "mydocs" !in ExcludedDirs
  {
    assert "mydocs/a.py" == "mydocs" + "/" + "a.py";
    SplitTwo("mydocs", "a.py", '/');
    ExcludedLengths();
  }

  lemma ExcludedLengths()
    ensures forall d :: d in ExcludedDirs ==> |d| != 6
  {
  }

  /** A path none of whose directory parts is an excluded name is not
      excluded by the directory rules. */
  lemma NoExcludedPart(rel: string)
    requires forall i :: 0 <= i < |Split(rel, '/')| - 1 ==> Split(rel, '/')[i] !in ExcludedDirs
    ensures !UnderExcludedDir(rel)
  {
    UnderExcludedDirIff(rel);
  }

  lemma MydocsNames()
    ensures !MentionsAny("mydocs/a.py", UtilityOrConfigFiles)
    ensures !MentionsAny("mydocs/a.py", WorkflowOrDocFiles)
  {
    var p := "mydocs/a.py";
    AbsentFirstChar(p, "hubconf.py");
    AbsentFirstChar(p, "gen-card-");
    FirstCharOnlyAt(p, "package-lock.json", 9);
    AbsentFirstChar(p, "write_model_card");
    FirstCharOnlyAt(p, "setup.py", 5);
    FirstCharOnlyAt(p, "stale.py", 5);
  }

  /** The only place p's first character occurs in s is index k, and p does
      not occur there. */
  lemma FirstCharOnlyAt(s: string, p: string, k: nat)
    requires |p| > 0 && k < |s| && !OccursAt(s, p, k)
    requires forall i :: 0 <= i < |s| && i != k ==> s[i] != p[0]
    ensures !Contains(s, p)
  {
    forall i | 0 <= i <= |s| - |p| && i != k ensures !OccursAt(s, p, i) {
      assert s[i..i + |p|][0] == s[i];
    }
  }

  // ---------------------------------------------------------------------
  // Extensions and comment markers of admitted paths

  /** A supported extension is a dot followed by dot-free, slash-free text. */
  predicate SimpleExtension(e: string) {
    |e| >= 2 && e[0] == '.' && forall j :: 1 <= j < |e| ==> e[j] != '.' && e[j] != '/'
  }

  lemma SupportedAreSimple()
    ensures forall e :: e in SupportedExtensions ==> SimpleExtension(e)
  {
  }

  /** splitext of a path ending in a simple extension, whose last part does not
      start with a dot, is that extension. */
  lemma ExtOfSuffix(path: string, e: string)
    requires SimpleExtension(e) && EndsWith(path, e)
    requires !StartsWith(path, ".") && !Contains(path, "/.")
    ensures Ext(path) == e
  {
    var dot := |path| - |e|;
    SuffixChars(path, e);
    var sep := LastIndex(path, '/');
    NoDotAfterSep(path, sep);
    ExtAt(path, dot);
    assert path[dot..] == e;
  }

  /** splitext when the last dot is at `dot`, after the last '/', and the
      last part does not start with a dot. */
  lemma ExtAt(path: string, dot: nat)
    requires dot < |path| && path[dot] == '.'
    requires forall j :: dot < j < |path| ==> path[j] != '.' && path[j] != '/'
    requires path[LastIndex(path, '/') + 1] != '.'
    ensures Ext(path) == path[dot..]
  {
    LastIndexIs(path, '.', dot);
    LastSepBefore(path, dot);
    ExtAtDot(path, dot, LastIndex(path, '/') + 1);
  }

  /** With no '/' from `dot` on, the last '/' comes before `dot`. */
  lemma LastSepBefore(path: string, dot: nat)
    requires dot < |path| && path[dot] == '.'
    requires forall j :: dot < j < |path| ==> path[j] != '/'
    ensures LastIndex(path, '/') < dot
  {
  }

  lemma SuffixChars(path: string, e: string)
    requires SimpleExtension(e) && EndsWith(path, e)
    ensures path[|path| - |e|] == '.'
    ensures forall j :: |path| - |e| < j < |path| ==> path[j] != '.' && path[j] != '/'
  {
    var dot := |path| - |e|;
    assert path[dot..][0] == e[0];
    forall j | dot < j < |path| ensures path[j] != '.' && path[j] != '/' {
      assert path[j] == path[dot..][j - dot];
    }
  }

  lemma LastIndexIs(s: string, c: char, k: nat)
    requires k < |s| && s[k] == c
    requires forall j :: k < j < |s| ==> s[j] != c
    ensures LastIndex(s, c) == k
  {
  }

  /** The character after the last '/' (or the first one, when there is none)
      is not a dot. */
  lemma NoDotAfterSep(path: string, sep: int)
    requires -1 <= sep < |path| - 1 && (sep >= 0 ==> path[sep] == '/')
    requires !StartsWith(path, ".") && !Contains(path, "/.")
    ensures path[sep + 1] != '.'
  {
    if sep >= 0 && path[sep + 1] == '.' {
      assert path[sep..sep + 2] == "/.";
      assert OccursAt(path, "/.", sep);
    } else if sep < 0 {
      assert path[..1] == [path[0]];
    }
  }

  /** For an admitted path, splitext finds exactly the allow-listed suffix. */
  lemma AdmittedExtension(path: string)
    requires IsValidFile(path)
    ensures Ext(path) in SupportedExtensions && EndsWith(path, Ext(path))
  {
    var e :| e in SupportedExtensions && EndsWith(path, e);
    SupportedAreSimple();
    DotSegmentIff(path);
    ExtOfSuffix(path, e);
  }

  lemma PySuffixIff(path: string, e: string)
    requires e in SupportedExtensions && EndsWith(path, e)
    ensures EndsWith(path, ".py") <==> e == ".py"
  {
    if EndsWith(path, ".py") {
      assert path[|path| - 1] == 'y';
      assert path[|path| - 1] == e[|e| - 1];
    }
  }

  /** Every admitted entry gets a non-empty marker: "#" exactly for ".py",
      "//" for all the other admitted extensions. */
  lemma AdmittedMarker(path: string)
    requires IsValidFile(path)
    ensures CommentSyntax(path) == "#" <==> EndsWith(path, ".py")
    ensures CommentSyntax(path) != "#" ==> CommentSyntax(path) == "//"
  {
    AdmittedExtension(path);
    PySuffixIff(path, Ext(path));
    MarkerOfExtension(path);
  }

  /** An allow-listed extension selects "#" exactly for ".py" and "//" for
      the rest. */
  lemma MarkerOfExtension(path: string)
    requires Ext(path) in SupportedExtensions
    ensures CommentSyntax(path) == "#" <==> Ext(path) == ".py"
    ensures CommentSyntax(path) != "#" ==> CommentSyntax(path) == "//"
  {
    MarkerTable();
  }

  lemma MarkerTable()
    ensures forall e :: e in SupportedExtensions ==> (e in [".py"] <==> e == ".py")
    ensures forall e :: e in SupportedExtensions && e != ".py" ==> e in JsFamily + CFamily
  {
  }
}
