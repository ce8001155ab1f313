// `RepoProcessor` itself: the choice between a repository URL, a local zip
// archive and a directory, the rewrite of a GitHub "tree" URL, and the three
// ways of enumerating the files whose sections make up the digest. The
// network, the zip reader and the file system are given as a `Host` record of
// functions, so each source is the digest of the entries the host yields.
module Processor {
  import opened TextOps
  import opened Outcomes
  import opened Admission
  import opened Reducers
  import opened Digest
  import opened DirWalk
  import opened PathRules
  import opened Markdown

  /** Where the repository is read from. */
  datatype SourceKind = Url | Zip | Directory

  /** The dispatch of `process_repo`: a descriptor starting with "http" is a
      URL even when it ends in ".zip"; otherwise ".zip" means a local archive;
      anything else is a directory. */
  function SourceOf(repoPath: string): (k: SourceKind)
    ensures k == Url <==> StartsWith(repoPath, "http")
    ensures k == Zip <==> !StartsWith(repoPath, "http") && EndsWith(repoPath, ".zip")
    ensures k == Directory <==> !StartsWith(repoPath, "http") && !EndsWith(repoPath, ".zip")
  {
    if StartsWith(repoPath, "http") then Url
    else if EndsWith(repoPath, ".zip") then Zip
    else Directory
  }

  /** The service that serves a single folder of a GitHub repository. */
  const DownloadDirectory: string := "https://download-directory.github.io/?"

  /** The rewrite `_process_url` applies before fetching: a URL naming a
      folder ("/tree/" occurs in it) is handed to the folder service. */
  function RewriteTreeUrl(repoPath: string): string {
    if Contains(repoPath, "/tree/") then DownloadDirectory + repoPath else repoPath
  }

  /** The address `_process_url` fetches. */
  function ArchiveUrl(repoPath: string): string {
    RewriteTreeUrl(repoPath) + "/archive/master.zip"
  }

  /** What opening an archive yields: its members in `namelist()` order, each
      decoded as UTF-8 (`None` when decoding fails), or the reason it cannot
      be opened. */
  datatype Archive = Opened(members: seq<Entry>) | Missing | Corrupt

  /** The outside world as the processor sees it: the working directory as a
      list of names, the archive at a local path, the archive in the body
      fetched from a URL, the tree below a directory, and the parsers. */
  datatype Host = Host(
    cwd: seq<string>,
    openZip: string -> Archive,
    fetch: string -> Archive,
    walk: string -> Tree,
    parsers: Parsers)

  /** The digest of an archive's members, admitted by member name. */
  function ArchiveDigest(archive: Archive, location: string, parsers: Parsers): Result<string> {
    match archive
    case Missing => Err(ZipNotFound(location))
    case Corrupt => Err(BadZip(location))
    case Opened(members) => DigestOf(members, parsers)
  }

  /** `_process_url`: the archive fetched from the (rewritten) URL. A fetched
      body that is not an archive is reported against the fetched address. */
  function UrlDigest(host: Host, repoPath: string): Result<string> {
    var url := ArchiveUrl(repoPath);
    match host.fetch(url)
    case Opened(members) => DigestOf(members, host.parsers)
    case _ => Err(BadZip(url))
  }

  /** `_process_zip`: the archive at the local path. */
  function ZipDigest(host: Host, repoPath: string): Result<string> {
    ArchiveDigest(host.openZip(repoPath), repoPath, host.parsers)
  }

  /** The entries `_process_directory` meets, in walk order, each under its
      path relative to the top of the walk. */
  function DirectoryEntries(t: Tree, ignore: seq<string>): (r: seq<Entry>)
    ensures |r| == |WalkTree(t, [], ignore)|
    ensures forall k :: 0 <= k < |r| ==>
      r[k] == Entry(RelativePath(WalkTree(t, [], ignore)[k]), WalkTree(t, [], ignore)[k].file.content)
  {
    var ws := WalkTree(t, [], ignore);
    seq(|ws|, k requires 0 <= k < |ws| => Entry(RelativePath(ws[k]), ws[k].file.content))
  }

  /** `_process_directory`: the walk of the directory, pruned by `ignore`. */
  function DirectoryDigest(host: Host, repoPath: string, ignore: seq<string>): Result<string> {
    DigestOf(DirectoryEntries(host.walk(repoPath), ignore), host.parsers)
  }

  /** `process_repo`: the digest of whichever source the descriptor names. */
  function RepoDigest(host: Host, repoPath: string, ignore: seq<string>): Result<string> {
    match SourceOf(repoPath)
    case Url => UrlDigest(host, repoPath)
    case Zip => ZipDigest(host, repoPath)
    case Directory => DirectoryDigest(host, repoPath, ignore)
  }

  /** The processor. `outputFile` is kept but never read by the digest. */
  class RepoProcessor {
    var repoPath: string
    const outputFile: string
    const ignoreDirs: seq<string>

    constructor (repoPath: string, outputFile: string, ignoreDirs: seq<string>)
      ensures this.repoPath == repoPath
      ensures this.outputFile == outputFile && this.ignoreDirs == ignoreDirs
    {
      this.repoPath := repoPath;
      this.outputFile := outputFile;
      this.ignoreDirs := ignoreDirs;
    }

    /** `process_repo`. A URL descriptor is left rewritten afterwards; the
        other sources leave the descriptor alone. */
    method ProcessRepo(host: Host) returns (r: Result<string>)
      modifies this
      ensures r == RepoDigest(host, old(repoPath), ignoreDirs)
      ensures repoPath == (if SourceOf(old(repoPath)) == Url then RewriteTreeUrl(old(repoPath)) else old(repoPath))
    {
      if StartsWith(repoPath, "http") {
        r := ProcessUrl(host);
      } else if EndsWith(repoPath, ".zip") {
        r := ProcessZip(host);
      } else {
        r := ProcessDirectory(host);
      }
    }

    /** `_process_url`: rewrite a folder URL in place, then digest the
        archive fetched from the rewritten address. */
    method ProcessUrl(host: Host) returns (r: Result<string>)
      modifies this
      ensures repoPath == RewriteTreeUrl(old(repoPath))
      ensures r == UrlDigest(host, old(repoPath))
    {
      if Contains(repoPath, "/tree/") {
        repoPath := DownloadDirectory + repoPath;
      }
      var url := repoPath + "/archive/master.zip";
      var archive := host.fetch(url);
      if archive.Opened? {
        r := ProcessEntries(archive.members, IsValidFile, host.parsers);
      } else {
        r := Err(BadZip(url));
      }
    }

    /** `_process_zip`: a missing file and a file that is not an archive are
        reported against the path; otherwise the members are digested. */
    method ProcessZip(host: Host) returns (r: Result<string>)
      ensures r == ZipDigest(host, repoPath)
    {
      var archive := host.openZip(repoPath);
      match archive {
        case Missing => r := Err(ZipNotFound(repoPath));
        case Corrupt => r := Err(BadZip(repoPath));
        case Opened(members) => r := ProcessEntries(members, IsValidFile, host.parsers);
      }
    }

    /** `_process_directory`: walk the directory, pruning `ignoreDirs`, and
        digest every file reached. */
    method ProcessDirectory(host: Host) returns (r: Result<string>)
      ensures r == DirectoryDigest(host, repoPath, ignoreDirs)
    {
      var entries := DirectoryEntries(host.walk(repoPath), ignoreDirs);
      r := ProcessEntries(entries, IsValidFile, host.parsers);
    }
  }

  // ---------------------------------------------------------------------
  // Properties of the dispatch and the rewrite

  /** The rewritten descriptor is still dispatched as a URL, still holds
      "/tree/" when the original did, and ends with the original. */
  lemma RewriteKeepsUrl(repoPath: string)
    requires SourceOf(repoPath) == Url
    ensures SourceOf(RewriteTreeUrl(repoPath)) == Url
    ensures EndsWith(RewriteTreeUrl(repoPath), repoPath)
    ensures Contains(repoPath, "/tree/") ==> Contains(RewriteTreeUrl(repoPath), "/tree/")
  {
    if Contains(repoPath, "/tree/") {
      ServicePrefix(repoPath);
    } else {
      assert repoPath[|repoPath| - |repoPath|..] == repoPath;
    }
  }

  /** Putting the service address in front keeps a URL, keeps the original
      at the end, and keeps every occurrence of "/tree/". */
  lemma ServicePrefix(s: string)
    ensures StartsWith(DownloadDirectory + s, "http")
    ensures EndsWith(DownloadDirectory + s, s)
    ensures Contains(s, "/tree/") ==> Contains(DownloadDirectory + s, "/tree/")
  {
    var r := DownloadDirectory + s;
    assert r[..4] == DownloadDirectory[..4];
    assert DownloadDirectory[0] == 'h' && DownloadDirectory[1] == 't';
    assert DownloadDirectory[2] == 't' && DownloadDirectory[3] == 'p';
    assert DownloadDirectory[..4] == "http";
    assert r[|DownloadDirectory|..] == s;
    if Contains(s, "/tree/") {
      var j :| OccursAt(s, "/tree/", j);
      OccurrenceShift(r, |DownloadDirectory|, "/tree/", j);
    }
  }

  /** The rewrite is not idempotent: a processor whose folder URL was
      rewritten by one run prefixes the service address again on the next. */
  lemma RewriteTwice(repoPath: string)
    requires Contains(repoPath, "/tree/")
    ensures RewriteTreeUrl(RewriteTreeUrl(repoPath)) == DownloadDirectory + DownloadDirectory + repoPath
    ensures RewriteTreeUrl(RewriteTreeUrl(repoPath)) != RewriteTreeUrl(repoPath)
  {
    ServicePrefix(repoPath);
    assert |DownloadDirectory + RewriteTreeUrl(repoPath)| != |RewriteTreeUrl(repoPath)|;
  }

  /** The fetched address is the (rewritten) descriptor followed by
      "/archive/master.zip", so it ends with the descriptor followed by that
      suffix and is itself a URL. */
  lemma ArchiveUrlShape(repoPath: string)
    requires SourceOf(repoPath) == Url
    ensures EndsWith(ArchiveUrl(repoPath), repoPath + "/archive/master.zip")
    ensures StartsWith(ArchiveUrl(repoPath), RewriteTreeUrl(repoPath))
    ensures SourceOf(ArchiveUrl(repoPath)) == Url
  {
    var r := RewriteTreeUrl(repoPath);
    RewriteKeepsUrl(repoPath);
    var u := ArchiveUrl(repoPath);
    assert u[..|r|] == r;
    assert u[..4] == r[..4];
    assert u[|u| - |repoPath + "/archive/master.zip"|..] == repoPath + "/archive/master.zip" by {
      assert u == r[..|r| - |repoPath|] + (repoPath + "/archive/master.zip");
    }
  }

  /** `process_repo` reads a descriptor starting with "http" as a URL, even
      one ending in ".zip"; otherwise a ".zip" path as a local archive; and
      anything else as a directory, the only source the ignored names reach. */
  lemma RepoDigestDispatch(host: Host, repoPath: string, ignore: seq<string>)
    ensures StartsWith(repoPath, "http") ==> RepoDigest(host, repoPath, ignore) == UrlDigest(host, repoPath)
    ensures !StartsWith(repoPath, "http") && EndsWith(repoPath, ".zip") ==>
      RepoDigest(host, repoPath, ignore) == ZipDigest(host, repoPath)
    ensures !StartsWith(repoPath, "http") && !EndsWith(repoPath, ".zip") ==>
      RepoDigest(host, repoPath, ignore) == DirectoryDigest(host, repoPath, ignore)
  {
  }

  /** The ignored directory names only prune the walk: for a URL or a zip
      archive they change nothing. */
  lemma IgnoreDirsOnlyPruneWalk(host: Host, repoPath: string, a: seq<string>, b: seq<string>)
    requires SourceOf(repoPath) != Directory
    ensures RepoDigest(host, repoPath, a) == RepoDigest(host, repoPath, b)
  {
  }

  // ---------------------------------------------------------------------
  // The digest of each source

  /** A local archive whose every member succeeds yields the sections of
      exactly the members whose names pass `IsValidFile`, in `namelist()`
      order; a missing or corrupt archive is reported against its path. */
  lemma ZipSections(host: Host, repoPath: string)
    requires host.openZip(repoPath).Opened?
    requires forall k :: 0 <= k < |host.openZip(repoPath).members| ==>
      Succeeds(host.openZip(repoPath).members[k], IsValidFile, Cleaning(host.parsers))
    ensures ZipDigest(host, repoPath)
      == Ok(Concat(Sections(host.openZip(repoPath).members, IsValidFile, Cleaning(host.parsers))))
  {
    DigestIsSections(host.openZip(repoPath).members, IsValidFile, Cleaning(host.parsers));
  }

  /** The archive behind a URL, likewise: when every member succeeds its
      digest is the sections of exactly the members whose names pass
      `IsValidFile`, in `namelist()` order. */
  lemma UrlSections(host: Host, repoPath: string)
    requires host.fetch(ArchiveUrl(repoPath)).Opened?
    requires forall k :: 0 <= k < |host.fetch(ArchiveUrl(repoPath)).members| ==>
      Succeeds(host.fetch(ArchiveUrl(repoPath)).members[k], IsValidFile, Cleaning(host.parsers))
    ensures UrlDigest(host, repoPath)
      == Ok(Concat(Sections(host.fetch(ArchiveUrl(repoPath)).members, IsValidFile, Cleaning(host.parsers))))
  {
    DigestIsSections(host.fetch(ArchiveUrl(repoPath)).members, IsValidFile, Cleaning(host.parsers));
  }

  /** `_process_zip` as written: members are admitted by `AdmittedAsWritten`,
      whose usefulness rules see the member name relative to the archive's
      own path. */
  function ZipDigestAsWritten(host: Host, repoPath: string): (r: Result<string>)
    ensures !host.openZip(repoPath).Opened? ==> r == ZipDigest(host, repoPath)
  {
    match host.openZip(repoPath)
    case Missing => Err(ZipNotFound(repoPath))
    case Corrupt => Err(BadZip(repoPath))
    case Opened(members) =>
      DigestWith(members, p => AdmittedAsWritten(p, repoPath, host.cwd), Cleaning(host.parsers))
  }

  /** `_process_url` as written: the members of the fetched archive are
      admitted by `AdmittedAsWritten` against the rewritten URL, the value
      `repo_path` holds while they are tested. */
  function UrlDigestAsWritten(host: Host, repoPath: string): (r: Result<string>)
    ensures !host.fetch(ArchiveUrl(repoPath)).Opened? ==> r == UrlDigest(host, repoPath)
  {
    var url := ArchiveUrl(repoPath);
    match host.fetch(url)
    case Opened(members) =>
      DigestWith(members, p => AdmittedAsWritten(p, RewriteTreeUrl(repoPath), host.cwd),
                 Cleaning(host.parsers))
    case _ => Err(BadZip(url))
  }

  /** As written, the archive of an "https://" URL yields the empty digest
      when its members are directories or lie under a top-level name other
      than "https:", as GitHub's "<repository>-<branch>/" layout does. */
  lemma UrlMembersRejected(host: Host, repoPath: string)
    requires StartsWith(repoPath, "https://")
    requires forall k :: 0 <= k < |Split(RewriteTreeUrl(repoPath), '/')| ==>
      Split(RewriteTreeUrl(repoPath), '/')[k] != ".."
    requires host.fetch(ArchiveUrl(repoPath)).Opened?
    requires forall k :: 0 <= k < |host.fetch(ArchiveUrl(repoPath)).members| ==>
      var m := host.fetch(ArchiveUrl(repoPath)).members[k];
      EndsWith(m.path, "/") || BelowOtherTop(m.path, "https:")
    ensures UrlDigestAsWritten(host, repoPath) == Ok("")
  {
    var u := RewriteTreeUrl(repoPath);
    RewriteKeepsHttps(repoPath);
    HttpsFirstPart(u);
    ForeignMembersDigestEmpty(host.fetch(ArchiveUrl(repoPath)).members, u, host.cwd,
                              Cleaning(host.parsers));
  }

  lemma RewriteKeepsHttps(repoPath: string)
    requires StartsWith(repoPath, "https://")
    ensures StartsWith(RewriteTreeUrl(repoPath), "https://")
  {
    if Contains(repoPath, "/tree/") {
      var r := DownloadDirectory + repoPath;
      assert r[..8] == DownloadDirectory[..8];
    }
  }

  /** An "https://" URL splits into "https:", "", and the rest. */
  lemma HttpsFirstPart(u: string)
    requires StartsWith(u, "https://")
    ensures Split(u, '/')[0] == "https:" && IsName("https:")
    ensures |u| > 0 && u[0] != '/'
  {
    SchemeChars(u);
    FirstPartAt(u, 6);
  }

  lemma SchemeChars(u: string)
    requires StartsWith(u, "https://")
    ensures |u| > 6 && u[0] == 'h' && u[6] == '/' && u[..6] == "https:"
    ensures '/' !in u[..6] && IsName(u[..6])
  {
    assert u[6] == u[..8][6];
    assert u[..6] == u[..8][..6];
  }

  /** The first part of a split ends at the first separator. */
  lemma FirstPartAt(u: string, k: nat)
    requires k < |u| && u[k] == '/' && '/' !in u[..k]
    ensures Split(u, '/')[0] == u[..k]
  {
    FirstIndexAt(u, '/', k);
  }

  /** As written, a local archive at a relative path yields the empty digest
      when its members are directories or lie under a top-level name other
      than the path's first part. */
  lemma ZipMembersRejected(host: Host, repoPath: string)
    requires RelativeWithoutUps(repoPath)
    requires host.openZip(repoPath).Opened?
    requires forall k :: 0 <= k < |host.openZip(repoPath).members| ==>
      var m := host.openZip(repoPath).members[k];
      EndsWith(m.path, "/") || BelowOtherTop(m.path, Split(repoPath, '/')[0])
    ensures ZipDigestAsWritten(host, repoPath) == Ok("")
  {
    ForeignMembersDigestEmpty(host.openZip(repoPath).members, repoPath, host.cwd,
                              Cleaning(host.parsers));
  }

  /** An archive "repository.zip" holding only "mydocs/a.py": as written the
      digest is empty; with admission by member name it is that file's
      section. */
  lemma ArchiveMemberLost(host: Host, text: string, cleaned: string)
    requires host.openZip("repository.zip") == Opened([Entry("mydocs/a.py", Some(text))])
    requires CleanedContent("mydocs/a.py", text, host.parsers) == Ok(cleaned)
    ensures ZipDigestAsWritten(host, "repository.zip") == Ok("")
    ensures ZipDigest(host, "repository.zip") == Ok(Section("mydocs/a.py", cleaned))
  {
    var members := [Entry("mydocs/a.py", Some(text))];
    MemberOutsideArchive(host.cwd);
    AsWrittenDigestEmpty(members, "repository.zip", host.cwd, Cleaning(host.parsers));
    ArchiveMemberRejected(host.cwd);
    SingleEntryDigest(members[0], IsValidFile, Cleaning(host.parsers), cleaned);
  }

  /** A single admitted entry that decodes and cleans yields its section. */
  lemma SingleEntryDigest(e: Entry, admit: string -> bool, clean: Cleaner, cleaned: string)
    requires admit(e.path) && e.content.Some? && clean(e.path, e.content.value) == Ok(cleaned)
    ensures DigestWith([e], admit, clean) == Ok(Section(e.path, cleaned))
  {
    assert [e][1..] == [];
    assert Section(e.path, cleaned) + "" == Section(e.path, cleaned);
  }

  /** In a directory every offered entry is a file reached from the top,
      named by its path relative to the top, and the walk never enters a
      directory named in `ignore`. */
  lemma DirectoryEntriesSound(t: Tree, ignore: seq<string>, k: nat)
    requires k < |DirectoryEntries(t, ignore)|
    ensures var w := WalkTree(t, [], ignore)[k];
      && DirectoryEntries(t, ignore)[k] == Entry(JoinWith(w.dirs + [w.file.name], "/"), w.file.content)
      && Reaches(t, w.dirs, w.file, ignore)
      && forall j :: 0 <= j < |w.dirs| ==> w.dirs[j] !in ignore
  {
    WalkAvoidsIgnored(t, [], ignore);
    var w := WalkTree(t, [], ignore)[k];
    assert w in WalkTree(t, [], ignore);
    WalkSound(t, [], ignore, w);
    assert w.dirs[0..] == w.dirs;
  }

  /** Conversely, every file below the top that lies in no ignored directory
      is offered, under its relative path and with its content. */
  lemma DirectoryEntriesComplete(t: Tree, ignore: seq<string>, path: seq<string>, f: FileNode)
    requires Reaches(t, path, f, ignore)
    ensures Entry(JoinWith(path + [f.name], "/"), f.content) in DirectoryEntries(t, ignore)
  {
    WalkComplete(t, [], path, f, ignore);
    var ws := WalkTree(t, [], ignore);
    assert [] + path == path;
    var k :| 0 <= k < |ws| && ws[k] == Walked(path, f);
    assert DirectoryEntries(t, ignore)[k] == Entry(JoinWith(path + [f.name], "/"), f.content);
  }

  /** For a walked file whose path names are plain, the test that
      `_process_directory` and `process_files_to_markdown` apply to the joined
      full path agrees with `IsValidFile` on the path relative to the top,
      which is the path they show; the marker, the cleaning and the language
      tag chosen from either path are the same too. */
  lemma DirectoryAdmissionAgrees(repoPath: string, w: Walked, cwd: seq<string>, parsers: Parsers)
    requires AllNames(w.dirs + [w.file.name]) && w.file.content.Some?
    ensures var full := JoinAll(repoPath, w.dirs + [w.file.name]);
      && (AdmittedAsWritten(full, repoPath, cwd) <==> IsValidFile(RelativePath(w)))
      && RelPathFrom(full, repoPath, cwd) == RelativePath(w)
      && Header(RelPathFrom(full, repoPath, cwd)) == CommentSyntax(full) + " File: " + RelativePath(w) + "\n"
      && CleanedContent(full, w.file.content.value, parsers)
         == CleanedContent(RelativePath(w), w.file.content.value, parsers)
      && FileLanguage(full) == FileLanguage(RelativePath(w))
  {
    var names := w.dirs + [w.file.name];
    WalkedFileAdmission(repoPath, names, cwd, w.file.content.value, parsers);
    JoinAllIsPathJoin(repoPath, names);
    FullAndRelative(repoPath, JoinWith(names, "/"));
  }
}
