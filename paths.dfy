// POSIX path handling behind the admission test: `os.path.join` as the walk
// builds file paths, and `os.path.relpath` (through `os.path.abspath` and
// `os.path.normpath`), which `_is_likely_useful_file` applies to every path
// against `repo_path` before testing it. The working directory is a
// parameter, given as its list of names.
module PathRules {
  import opened TextOps
  import opened Outcomes
  import opened Admission
  import opened Reducers
  import opened Digest

  /** A part that normalisation keeps as a directory or file name. */
  predicate IsName(p: string) {
    p != "" && p != "." && p != ".." && '/' !in p
  }

  predicate AllNames(ps: seq<string>) {
    forall k :: 0 <= k < |ps| ==> IsName(ps[k])
  }

  /** `os.path.join(a, b)` for a `b` that does not start with '/'. */
  function PathJoin(a: string, b: string): string {
    if a == "" || EndsWith(a, "/") then a + b else a + "/" + b
  }

  /** The path `os.walk` and the loop body build for a file: the top joined
      with each directory name and then the file name, one at a time. */
  function JoinAll(root: string, names: seq<string>): string
    decreases |names|
  {
    if |names| == 0 then root else JoinAll(PathJoin(root, names[0]), names[1..])
  }

  /** The names of a normalised absolute path, reading `parts` left to
      right from `base`: "" and "." are skipped, ".." drops the last name (and
      stays put at the root), any other part is appended. */
  function Resolve(base: seq<string>, parts: seq<string>): seq<string>
    decreases |parts|
  {
    if |parts| == 0 then base
    else
      var p := parts[0];
      var next :=
        if p == "" || p == "." then base
        else if p == ".." then (if |base| == 0 then [] else base[..|base| - 1])
        else base + [p];
      Resolve(next, parts[1..])
  }

  /** The names of `os.path.abspath(path)`. */
  function AbsParts(path: string, cwd: seq<string>): seq<string> {
    Resolve(if StartsWith(path, "/") then [] else cwd, Split(path, '/'))
  }

  /** The length of the longest common prefix of two name lists. */
  function CommonPrefix(a: seq<string>, b: seq<string>): (n: nat)
    ensures n <= |a| && n <= |b| && a[..n] == b[..n]
    ensures n < |a| && n < |b| ==> a[n] != b[n]
  {
    if |a| == 0 || |b| == 0 || a[0] != b[0] then 0
    else
      var n := 1 + CommonPrefix(a[1..], b[1..]);
      assert a[..n] == [a[0]] + a[1..][..n - 1];
      assert b[..n] == [b[0]] + b[1..][..n - 1];
      n
  }

  function Ups(n: nat): (r: seq<string>)
    ensures |r| == n && forall k :: 0 <= k < n ==> r[k] == ".."
  {
    seq(n, k => "..")
  }

  /** `os.path.relpath(path, start)`: one ".." for every name of `start`
      past the common prefix, then the rest of `path`'s names; "." when both
      name the same directory. */
  function RelPathFrom(path: string, start: string, cwd: seq<string>): string {
    var t, s := AbsParts(path, cwd), AbsParts(start, cwd);
    var c := CommonPrefix(s, t);
    var rel := Ups(|s| - c) + t[c..];
    if |rel| == 0 then "." else JoinWith(rel, "/")
  }

  /** `_is_valid_file` as written: the extension tests see the path itself,
      the usefulness rules see it relative to `repo_path`. */
  predicate AdmittedAsWritten(path: string, repoPath: string, cwd: seq<string>) {
    !EndsWith(path, "/") && HasSupportedExtension(path)
    && IsLikelyUsefulFile(RelPathFrom(path, repoPath, cwd))
  }

  // ---------------------------------------------------------------------
  // Splitting and joining

  /** Splitting at an inserted separator splits both sides independently. */
  lemma {:induction false} SplitConcat(a: string, b: string, sep: char)
    ensures Split(a + [sep] + b, sep) == Split(a, sep) + Split(b, sep)
    decreases |a|
  {
    var s := a + [sep] + b;
    assert s[|a|] == sep;
    if sep !in a {
      assert s[..|a|] == a;
      FirstIndexAt(s, sep, |a|);
      assert s[|a| + 1..] == b;
      assert Split(s, sep) == [a] + Split(b, sep);
    } else {
      var k := FirstIndex(a, sep);
      assert s[..k] == a[..k];
      FirstIndexAt(s, sep, k);
      assert s[k + 1..] == a[k + 1..] + [sep] + b;
      SplitConcat(a[k + 1..], b, sep);
      assert Split(s, sep) == [a[..k]] + Split(s[k + 1..], sep);
      assert Split(a, sep) == [a[..k]] + Split(a[k + 1..], sep);
    }
  }

  /** Splitting names joined with the separator gives the names back. */
  lemma {:induction false} SplitJoin(names: seq<string>, sep: char)
    requires |names| > 0
    requires forall k :: 0 <= k < |names| ==> sep !in names[k]
    ensures Split(JoinWith(names, [sep]), sep) == names
    decreases |names|
  {
    if |names| > 1 {
      var rest := JoinWith(names[1..], [sep]);
      SplitJoin(names[1..], sep);
      SplitConcat(names[0], rest, sep);
      assert JoinWith(names, [sep]) == names[0] + [sep] + rest;
      assert Split(names[0], sep) == [names[0]];
      assert names == [names[0]] + names[1..];
    } else {
      assert JoinWith(names, [sep]) == names[0];
    }
  }

  lemma JoinFirst(names: seq<string>, sep: string)
    requires |names| > 0
    ensures StartsWith(JoinWith(names, sep), names[0])
  {
    if |names| > 1 {
      var j := JoinWith(names, sep);
      assert j[..|names[0]|] == names[0];
    }
  }

  lemma JoinLast(names: seq<string>, sep: string)
    requires |names| > 0
    ensures EndsWith(JoinWith(names, sep), names[|names| - 1])
    decreases |names|
  {
    if |names| > 1 {
      JoinLast(names[1..], sep);
      var j := JoinWith(names, sep);
      var rest := JoinWith(names[1..], sep);
      var last := names[|names| - 1];
      assert names[1..][|names[1..]| - 1] == last;
      assert j[|j| - |last|..] == rest[|rest| - |last|..];
    }
  }

  // ---------------------------------------------------------------------
  // Joining a walked path

  /** Joining names one at a time is joining the top with the names
      separated by '/'. */
  lemma {:induction false} JoinAllIsPathJoin(root: string, names: seq<string>)
    requires |names| > 0 && AllNames(names)
    ensures JoinAll(root, names) == PathJoin(root, JoinWith(names, "/"))
    decreases |names|
  {
    if |names| > 1 {
      var first := PathJoin(root, names[0]);
      var j := JoinWith(names[1..], "/");
      JoinAllIsPathJoin(first, names[1..]);
      PathJoinStep(root, names[0], j);
      assert JoinWith(names, "/") == names[0] + "/" + j;
    }
  }

  /** Joining a name and then more is joining the name, '/', and the rest. */
  lemma PathJoinStep(root: string, n: string, j: string)
    requires IsName(n)
    ensures PathJoin(PathJoin(root, n), j) == PathJoin(root, n + "/" + j)
  {
    var first := PathJoin(root, n);
    assert first != "" && !EndsWith(first, "/") by {
      assert first[|first| - 1] == n[|n| - 1];
      assert n[|n| - 1] in n;
    }
    if root == "" || EndsWith(root, "/") {
      assert first + "/" + j == root + (n + "/" + j);
    } else {
      assert first + "/" + j == root + "/" + (n + "/" + j);
    }
  }

  // ---------------------------------------------------------------------
  // Normalisation

  lemma {:induction false} ResolveAppend(base: seq<string>, x: seq<string>, y: seq<string>)
    ensures Resolve(base, x + y) == Resolve(Resolve(base, x), y)
    decreases |x|
  {
    if |x| == 0 {
      assert x + y == y;
    } else {
      assert (x + y)[0] == x[0] && (x + y)[1..] == x[1..] + y;
      var p := x[0];
      var next :=
        if p == "" || p == "." then base
        else if p == ".." then (if |base| == 0 then [] else base[..|base| - 1])
        else base + [p];
      ResolveAppend(next, x[1..], y);
    }
  }

  /** Plain names are appended as they are. */
  lemma {:induction false} ResolveNames(base: seq<string>, names: seq<string>)
    requires AllNames(names)
    ensures Resolve(base, names) == base + names
    decreases |names|
  {
    if |names| > 0 {
      ResolveNames(base + [names[0]], names[1..]);
      assert base + [names[0]] + names[1..] == base + names;
    }
  }

  /** The names of a path joined below `repo` are those of `repo` followed by
      the joined names. */
  lemma AbsPartsOfJoin(repo: string, names: seq<string>, cwd: seq<string>)
    requires |names| > 0 && AllNames(names)
    ensures AbsParts(PathJoin(repo, JoinWith(names, "/")), cwd) == AbsParts(repo, cwd) + names
  {
    var j := JoinWith(names, "/");
    SplitJoin(names, '/');
    JoinedNotRooted(names);
    if repo == "" {
      assert PathJoin(repo, j) == j;
      assert Split(repo, '/') == [""];
      ResolveSkipsEmpty(cwd);
      ResolveNames(cwd, names);
    } else {
      JoinedBelow(repo, j, names, cwd);
    }
  }

  /** Joined names start with the first name, so not with '/'. */
  lemma JoinedNotRooted(names: seq<string>)
    requires |names| > 0 && AllNames(names)
    ensures |JoinWith(names, "/")| > 0 && !StartsWith(JoinWith(names, "/"), "/")
  {
    var j := JoinWith(names, "/");
    JoinFirst(names, "/");
    assert j[0] == names[0][0];
    assert names[0][0] in names[0];
  }

  lemma JoinedBelow(repo: string, j: string, names: seq<string>, cwd: seq<string>)
    requires repo != "" && |j| > 0 && !StartsWith(j, "/")
    requires Split(j, '/') == names && AllNames(names)
    ensures AbsParts(PathJoin(repo, j), cwd) == AbsParts(repo, cwd) + names
  {
    var q := JoinShape(repo, j);
    var base := AbsBase(repo, cwd);
    ResolveBelow(base, q, j, names);
    if EndsWith(repo, "/") {
      TrailingSlashResolves(base, q);
    }
  }

  /** The joined path is q, '/', then j, where repo is q with or without a
      trailing '/'; the join is rooted exactly when repo is. */
  lemma JoinShape(repo: string, j: string) returns (q: string)
    requires repo != ""
    ensures PathJoin(repo, j) == q + "/" + j
    ensures if EndsWith(repo, "/") then repo == q + "/" else repo == q
    ensures StartsWith(PathJoin(repo, j), "/") <==> StartsWith(repo, "/")
  {
    var full := PathJoin(repo, j);
    q := if EndsWith(repo, "/") then repo[..|repo| - 1] else repo;
    if EndsWith(repo, "/") {
      assert repo == q + "/";
    }
    assert full[..|repo|] == repo;
    assert full[0] == repo[0];
  }

  lemma ResolveBelow(base: seq<string>, q: string, j: string, names: seq<string>)
    requires Split(j, '/') == names && AllNames(names)
    ensures Resolve(base, Split(q + "/" + j, '/')) == Resolve(base, Split(q, '/')) + names
  {
    SplitConcat(q, j, '/');
    assert q + "/" + j == q + ['/'] + j;
    ResolveAppend(base, Split(q, '/'), names);
    ResolveNames(Resolve(base, Split(q, '/')), names);
  }

  /** A trailing '/' adds an empty part, which resolution skips. */
  lemma TrailingSlashResolves(base: seq<string>, q: string)
    ensures Resolve(base, Split(q + "/", '/')) == Resolve(base, Split(q, '/'))
  {
    SplitConcat(q, "", '/');
    assert q + "/" + "" == q + "/";
    assert Split("", '/') == [""];
    ResolveAppend(base, Split(q, '/'), [""]);
    ResolveSkipsEmpty(Resolve(base, Split(q, '/')));
  }

  lemma ResolveSkipsEmpty(base: seq<string>)
    ensures Resolve(base, [""]) == base
  {
    assert [""][1..] == [];
  }

  function AbsBase(path: string, cwd: seq<string>): seq<string> {
    if StartsWith(path, "/") then [] else cwd
  }

  /** `relpath` undoes the join: the path of a walked file relative to the
      top is the directory and file names joined by '/'. */
  lemma RelPathOfJoin(repo: string, names: seq<string>, cwd: seq<string>)
    requires |names| > 0 && AllNames(names)
    ensures RelPathFrom(PathJoin(repo, JoinWith(names, "/")), repo, cwd) == JoinWith(names, "/")
  {
    var full := PathJoin(repo, JoinWith(names, "/"));
    AbsPartsOfJoin(repo, names, cwd);
    var s := AbsParts(repo, cwd);
    var t := AbsParts(full, cwd);
    var c := CommonPrefix(s, t);
    assert c == |s|;
    assert t[c..] == names;
    assert Ups(0) + names == names;
  }

  // ---------------------------------------------------------------------
  // The same file seen through its full path and its relative path

  lemma EndsWithAfterSep(q: string, j: string, e: string)
    requires '/' !in e
    ensures EndsWith(q + "/" + j, e) <==> EndsWith(j, e)
  {
    var full := q + "/" + j;
    if |e| <= |j| {
      assert full[|full| - |e|..] == j[|j| - |e|..];
    } else {
      assert full[|q|] == '/';
    }
  }

  /** `os.path.splitext` only looks past the last '/'. */
  lemma ExtAfterSep(q: string, j: string)
    ensures Ext(q + "/" + j) == Ext(j)
  {
    LastIndexAfter(q, j, '/');
    if LastIndex(j, '.') >= 0 {
      LastIndexAfter(q, j, '.');
      ExtShifted(q, j);
    } else {
      LastIndexBefore(q, j, '.');
    }
  }

  lemma ExtShifted(q: string, j: string)
    requires LastIndex(j, '.') >= 0
    requires LastIndex(q + "/" + j, '/') == |q| + 1 + LastIndex(j, '/')
    requires LastIndex(q + "/" + j, '.') == |q| + 1 + LastIndex(j, '.')
    ensures Ext(q + "/" + j) == Ext(j)
  {
    var full := q + "/" + j;
    var m := |q| + 1;
    var sepJ, dotJ := LastIndex(j, '/'), LastIndex(j, '.');
    ExtBody(full, m + sepJ, m + dotJ);
    ExtBody(j, sepJ, dotJ);
    if dotJ > sepJ {
      SliceAfterSep(q, j, sepJ + 1, dotJ);
      SliceAfterSep(q, j, dotJ, |j|);
    }
  }

  lemma SliceAfterSep(q: string, j: string, a: nat, b: nat)
    requires a <= b <= |j|
    ensures (q + "/" + j)[|q| + 1 + a..|q| + 1 + b] == j[a..b]
  {
    assert (q + "/" + j)[|q| + 1..] == j;
  }

  lemma ExtBody(path: string, sep: int, dot: int)
    requires sep == LastIndex(path, '/') && dot == LastIndex(path, '.')
    ensures dot > sep ==> 0 <= sep + 1 <= dot < |path|
    ensures Ext(path) == if dot > sep && !AllDots(path[sep + 1..dot]) then path[dot..] else ""
  {
  }

  /** The last c in q + "/" + j is the last c in j, shifted, when j has
      one; the last '/' is the inserted one when j has none. */
  lemma LastIndexAfter(q: string, j: string, c: char)
    requires LastIndex(j, c) >= 0 || c == '/'
    ensures LastIndex(q + "/" + j, c) == |q| + 1 + LastIndex(j, c)
  {
    var full := q + "/" + j;
    var k := |q| + 1 + LastIndex(j, c);
    assert full[k] == c;
    forall i | k < i < |full| ensures full[i] != c {
      assert full[i] == j[i - |q| - 1];
    }
    LastIndexIs(full, c, k);
  }

  lemma LastIndexBefore(q: string, j: string, c: char)
    requires LastIndex(j, c) == -1
    ensures LastIndex(q + "/" + j, c) <= |q|
  {
    var full := q + "/" + j;
    forall i | |q| < i < |full| ensures full[i] != c {
      if i > |q| {
        assert full[i] == j[i - |q| - 1];
      }
    }
  }

  /** For a walked file the admission test on its full path is the test on
      its path relative to the top, and the marker and the cleaning chosen
      from its full path are those chosen from the relative path. */
  lemma WalkedFileAdmission(repo: string, names: seq<string>, cwd: seq<string>,
                            content: string, parsers: Parsers)
    requires |names| > 0 && AllNames(names)
    ensures var full, rel := JoinAll(repo, names), JoinWith(names, "/");
      && RelPathFrom(full, repo, cwd) == rel
      && (AdmittedAsWritten(full, repo, cwd) <==> IsValidFile(rel))
      && CommentSyntax(full) == CommentSyntax(rel)
      && CleanedContent(full, content, parsers) == CleanedContent(rel, content, parsers)
  {
    var rel := JoinWith(names, "/");
    var full := PathJoin(repo, rel);
    JoinAllIsPathJoin(repo, names);
    RelPathOfJoin(repo, names, cwd);
    NotDirectoryPath(repo, names);
    FullAndRelative(repo, rel);
    SameExtSameCleaning(full, rel, content, parsers);
    AdmissionOfRelative(full, repo, cwd, rel);
  }

  /** The full path and the relative path end in the same extension. */
  lemma FullAndRelative(repo: string, rel: string)
    ensures Ext(PathJoin(repo, rel)) == Ext(rel)
    ensures HasSupportedExtension(PathJoin(repo, rel)) <==> HasSupportedExtension(rel)
  {
    if repo != "" {
      var q := JoinShape(repo, rel);
      ExtAfterSep(q, rel);
      ExtensionAfterSep(q, rel);
    } else {
      assert PathJoin(repo, rel) == rel;
    }
  }

  lemma AdmissionOfRelative(full: string, repo: string, cwd: seq<string>, rel: string)
    requires RelPathFrom(full, repo, cwd) == rel
    requires !EndsWith(full, "/") && !EndsWith(rel, "/")
    requires HasSupportedExtension(full) <==> HasSupportedExtension(rel)
    ensures AdmittedAsWritten(full, repo, cwd) <==> IsValidFile(rel)
  {
  }

  /** Neither the full path nor the relative path of a file ends in '/'. */
  lemma NotDirectoryPath(repo: string, names: seq<string>)
    requires |names| > 0 && AllNames(names)
    ensures !EndsWith(PathJoin(repo, JoinWith(names, "/")), "/")
    ensures !EndsWith(JoinWith(names, "/"), "/")
  {
    var rel := JoinWith(names, "/");
    JoinLast(names, "/");
    var n := names[|names| - 1];
    assert rel[|rel| - 1] == n[|n| - 1];
    assert n[|n| - 1] in n;
    LastOfJoin(repo, rel);
  }

  /** The join ends with the last character of its second part. */
  lemma LastOfJoin(repo: string, rel: string)
    requires |rel| > 0
    ensures var full := PathJoin(repo, rel); |full| > 0 && full[|full| - 1] == rel[|rel| - 1]
  {
    if repo != "" {
      var q := JoinShape(repo, rel);
      assert PathJoin(repo, rel) == (q + "/") + rel;
    }
  }

  lemma ExtensionAfterSep(q: string, rel: string)
    ensures HasSupportedExtension(q + "/" + rel) <==> HasSupportedExtension(rel)
  {
    SupportedAreSimple();
    forall e | e in SupportedExtensions ensures EndsWith(q + "/" + rel, e) <==> EndsWith(rel, e) {
      EndsWithAfterSep(q, rel, e);
    }
  }

  lemma SameExtSameCleaning(a: string, b: string, content: string, parsers: Parsers)
    requires Ext(a) == Ext(b)
    ensures CommentSyntax(a) == CommentSyntax(b)
    ensures CleanedContent(a, content, parsers) == CleanedContent(b, content, parsers)
  {
  }

  // ---------------------------------------------------------------------
  // Archive members

  /** A path whose names do not extend those of `repo_path` is seen by the
      usefulness rules as starting with "..": it is rejected, whatever its
      name. */
  lemma OutsideIsRejected(path: string, repoPath: string, cwd: seq<string>)
    requires !(AbsParts(repoPath, cwd) <= AbsParts(path, cwd))
    ensures StartsWith(RelPathFrom(path, repoPath, cwd), "..")
    ensures !AdmittedAsWritten(path, repoPath, cwd)
  {
    RelPathLeavesStart(path, repoPath, cwd);
    DotStartRejected(RelPathFrom(path, repoPath, cwd));
  }

  lemma RelPathLeavesStart(path: string, repoPath: string, cwd: seq<string>)
    requires !(AbsParts(repoPath, cwd) <= AbsParts(path, cwd))
    ensures StartsWith(RelPathFrom(path, repoPath, cwd), "..")
  {
    var t, s := AbsParts(path, cwd), AbsParts(repoPath, cwd);
    var c := CommonPrefix(s, t);
    CommonPrefixWhole(s, t);
    var rel := Ups(|s| - c) + t[c..];
    assert rel[0] == "..";
    JoinFirst(rel, "/");
  }

  lemma DotStartRejected(r: string)
    requires StartsWith(r, "..")
    ensures !IsLikelyUsefulFile(r)
  {
    assert r[..1] == "." by {
      assert r[..2] == "..";
    }
    DotSegmentIff(r);
  }

  /** A list that is a common prefix in full is a prefix. */
  lemma CommonPrefixWhole(s: seq<string>, t: seq<string>)
    ensures CommonPrefix(s, t) == |s| ==> s <= t
  {
    var c := CommonPrefix(s, t);
    assert s[..c] == t[..c];
    assert s[..|s|] == s;
  }

  /** An archive member as GitHub lays them out, below the archive's own
      path "repository.zip": the member passes the admission rules on its own
      name, but not as written. */
  lemma ArchiveMemberRejected(cwd: seq<string>)
    ensures IsValidFile("mydocs/a.py")
    ensures !AdmittedAsWritten("mydocs/a.py", "repository.zip", cwd)
  {
    MydocsIsAdmitted();
    MemberOutsideArchive(cwd);
    OutsideIsRejected("mydocs/a.py", "repository.zip", cwd);
  }

  lemma MemberOutsideArchive(cwd: seq<string>)
    ensures !(AbsParts("repository.zip", cwd) <= AbsParts("mydocs/a.py", cwd))
  {
    MemberAbs(cwd);
    ArchiveAbs(cwd);
    var s, t := cwd + ["repository.zip"], cwd + ["mydocs", "a.py"];
    assert s[|cwd|] == "repository.zip" && t[|cwd|] == "mydocs";
    assert s[|cwd|] != t[|cwd|];
  }

  lemma MemberAbs(cwd: seq<string>)
    ensures AbsParts("mydocs/a.py", cwd) == cwd + ["mydocs", "a.py"]
  {
    MemberParts();
    MemberNames();
    RelativeNames("mydocs/a.py", cwd, ["mydocs", "a.py"]);
  }

  lemma ArchiveAbs(cwd: seq<string>)
    ensures AbsParts("repository.zip", cwd) == cwd + ["repository.zip"]
  {
    MemberParts();
    MemberNames();
    RelativeNames("repository.zip", cwd, ["repository.zip"]);
  }

  lemma MemberNames()
    ensures AllNames(["mydocs", "a.py"]) && AllNames(["repository.zip"])
  {
    assert IsName("mydocs") && IsName("a.py") && IsName("repository.zip");
  }

  lemma MemberParts()
    ensures Split("mydocs/a.py", '/') == ["mydocs", "a.py"]
    ensures Split("repository.zip", '/') == ["repository.zip"]
  {
    assert "mydocs/a.py" == "mydocs" + ['/'] + "a.py";
    SplitTwo("mydocs", "a.py", '/');
    assert '/' !in "repository.zip";
  }

  /** A relative path made of plain names sits below the working directory. */
  lemma RelativeNames(path: string, cwd: seq<string>, names: seq<string>)
    requires |path| > 0 && path[0] != '/' && Split(path, '/') == names && AllNames(names)
    ensures AbsParts(path, cwd) == cwd + names
  {
    assert !StartsWith(path, "/");
    ResolveNames(cwd, names);
  }

  /** With the test as written, an archive none of whose members lies below
      the archive's own path yields an empty digest. */
  lemma {:induction false} AsWrittenDigestEmpty(entries: seq<Entry>, repoPath: string,
                                                cwd: seq<string>, clean: Cleaner)
    requires forall k :: 0 <= k < |entries| ==>
      !(AbsParts(repoPath, cwd) <= AbsParts(entries[k].path, cwd))
    ensures DigestWith(entries, p => AdmittedAsWritten(p, repoPath, cwd), clean) == Ok("")
    decreases |entries|
  {
    if |entries| > 0 {
      var admit := p => AdmittedAsWritten(p, repoPath, cwd);
      OutsideIsRejected(entries[0].path, repoPath, cwd);
      AsWrittenDigestEmpty(entries[1..], repoPath, cwd, clean);
      RejectedContributesNothing(entries[0], entries[1..], admit, clean);
      assert entries == [entries[0]] + entries[1..];
    }
  }
  /** Resolving parts none of which is ".." only appends to the base. */
  lemma {:induction false} ResolveExtends(base: seq<string>, parts: seq<string>)
    requires forall k :: 0 <= k < |parts| ==> parts[k] != ".."
    ensures base <= Resolve(base, parts)
    decreases |parts|
  {
    if |parts| > 0 {
      var p := parts[0];
      var next := if p == "" || p == "." then base else base + [p];
      assert base <= next;
      ResolveExtends(next, parts[1..]);
    }
  }

  /** `path` is relative, made of plain names, and its top-level name is not
      `top`. */
  predicate BelowOtherTop(path: string, top: string) {
    |path| > 0 && path[0] != '/' && AllNames(Split(path, '/')) && Split(path, '/')[0] != top
  }

  /** `repo_path` is relative, its first part is a plain name, and none of its
      parts is "..": its absolute form extends the working directory by that
      first name. */
  predicate RelativeWithoutUps(repoPath: string) {
    |repoPath| > 0 && repoPath[0] != '/' && IsName(Split(repoPath, '/')[0])
    && forall k :: 0 <= k < |Split(repoPath, '/')| ==> Split(repoPath, '/')[k] != ".."
  }

  /** As written, a member whose top-level name differs from the first part
      of a relative `repo_path` is outside it, and is rejected. */
  lemma ForeignTopRejected(path: string, repoPath: string, cwd: seq<string>)
    requires RelativeWithoutUps(repoPath)
    requires BelowOtherTop(path, Split(repoPath, '/')[0])
    ensures !(AbsParts(repoPath, cwd) <= AbsParts(path, cwd))
    ensures !AdmittedAsWritten(path, repoPath, cwd)
  {
    var names, sp := Split(path, '/'), Split(repoPath, '/');
    RelativeNames(path, cwd, names);
    var top := cwd + [sp[0]];
    assert Resolve(cwd, sp) == Resolve(top, sp[1..]);
    ResolveExtends(top, sp[1..]);
    var s, t := AbsParts(repoPath, cwd), AbsParts(path, cwd);
    assert s[|cwd|] == sp[0] && t[|cwd|] == names[0];
    OutsideIsRejected(path, repoPath, cwd);
  }

  /** As written, an archive whose members are directories (ending in '/')
      or files under a top-level name other than the first part of
      `repo_path` yields the empty digest. */
  lemma {:induction false} ForeignMembersDigestEmpty(entries: seq<Entry>, repoPath: string,
                                                     cwd: seq<string>, clean: Cleaner)
    requires RelativeWithoutUps(repoPath)
    requires forall k :: 0 <= k < |entries| ==>
      EndsWith(entries[k].path, "/") || BelowOtherTop(entries[k].path, Split(repoPath, '/')[0])
    ensures DigestWith(entries, p => AdmittedAsWritten(p, repoPath, cwd), clean) == Ok("")
  {
    var admit := p => AdmittedAsWritten(p, repoPath, cwd);
    forall k | 0 <= k < |entries| ensures !admit(entries[k].path) {
      if !EndsWith(entries[k].path, "/") {
        ForeignTopRejected(entries[k].path, repoPath, cwd);
      }
    }
    NothingAdmittedDigestEmpty(entries, admit, clean);
  }
}
