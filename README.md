# repo2docs: the repository digest, modelled in Dafny

repo2docs turns a source repository into one plain-text digest, which is then
sent to a language model to write documentation. The work is done by the class
`RepoProcessor`. It exists twice, almost line for line:

- `repo2docs/repo_to_text.py`;
- `repo2text/repo2text.py`, which also has `get_file_language` and `process_files_to_markdown`.

Given a *repository path*, the processor works as follows.

1. It picks a source:
   - a URL (anything starting with `http`) is fetched as `<path>/archive/master.zip`;
   - before the fetch, a GitHub folder URL (one holding `/tree/`) is rewritten to go through the download-directory service;
   - a `.zip` path is opened as a local archive;
   - anything else is walked as a directory, and the caller's ignored directory names are pruned from the walk.
2. It admits an entry only if:
   - its path does not end in `/`;
   - its path ends in one of nine source extensions;
   - the path relative to the repository passes the "likely useful" rules: no part starts with `.`, no `test` anywhere in the lowercased path, no directory from a fixed exclusion list, and no boilerplate file name.
3. It cleans each admitted file:
   - Python keeps only the imports, classes, functions and assignments;
   - JavaScript/TypeScript keeps the lines of its top-level declarations, and falls back to a regular-expression comment stripper;
   - C/C++ keeps each declaration from its first line to the next line ending in `;` or `}`, and falls back to the unchanged text;
   - finally, every run of three or more newlines is collapsed to two.
4. It appends `"<marker> File: <path>\n"`, the cleaned text and `"\n\n"` for each admitted entry, in enumeration order.

`process_files_to_markdown` walks a directory with the same admission test. For each file it writes a `## path` heading and a fenced code block tagged with the file's language.

The Dafny modules follow that structure:

| module | file | what it holds |
|---|---|---|
| `TextOps` | text_ops.dfy | prefix, suffix and substring tests, ASCII lowercasing, split and join on a separator |
| `Admission` | admission.dfy | the extension list, the usefulness rules, `os.path.splitext`, the comment marker |
| `LineBreaks` | linebreaks.dfy | the collapse of newline runs |
| `Comments` | comments.dfy | the comment stripper as a left-to-right scanner over the seven alternatives |
| `SourceLines` | lines.dfy | `split("\n")`, Python's clamped slices, `strip`, and the `_find_end_line` scan |
| `Reducers` | reducers.dfy | the three reducers and `_clean_file_content` |
| `Outcomes` | outcomes.dfy | `Option`, `Result` and the ways a digest can fail |
| `Digest` | digest.dfy | the digest as a function of the entry list, and the append loop proved against it |
| `DirWalk` | walk.dfy | `os.walk` over a directory tree value, with the pruning of ignored names |
| `Markdown` | markdown.dfy | `get_file_language` and the loop of `process_files_to_markdown` |
| `PathRules` | paths.dfy | `os.path.join`, `os.path.relpath` (via `abspath`/`normpath`), and the admission test exactly as written |
| `Processor` | processor.dfy | the dispatch, the URL rewrite, the three sources, and the class `RepoProcessor` |

Some things are parameters of the model:
- The parsers (`ast`, `esprima`, `pycparser`) are functions from the file text to the nodes the reducer visits, or `None` on a parse failure.
- The network, the zip reader and the file system are fields of a `Host` record: the archive at a path, the archive behind a URL, and the tree below a directory.
- The working directory is a list of names.
- Where the source prints a message and exits, or lets an exception escape, the model returns an `Err`.

## Model

| member | source | states |
|---|---|---|
| Admission.Ext | repo2docs/repo_to_text.py:104 | The extension `splitext` yields is empty, or it is the path's last `.` and what follows: it starts with a dot, ends the path, holds no other dot and no `/`, and some character other than a dot comes between the last `/` and it. |
| Admission.ExtOfStem | repo2docs/repo_to_text.py:104 | Conversely, a path ending in `.` and a tail without dots or `/`, whose last part has a character other than a dot before that `.`, has exactly that suffix as its extension. |
| Admission.NoExtAfterLeadingDots | repo2docs/repo_to_text.py:104 | A last part made of leading dots and a dot-free tail, such as `.py` or `dir/.bashrc`, has no extension. |
| Admission.ExtOfSuffix | repo2docs/repo_to_text.py:104 | A path that ends in one of the nine extensions, with no part starting with a dot, has exactly that extension. |
| Admission.DotSegmentIff | repo2docs/repo_to_text.py:264-266 | Some `/`-separated part starts with `.` exactly when the path starts with `.` or contains `/.`. |
| Admission.ExcludedRuleIsSegmentMatch | repo2docs/repo_to_text.py:268-272 | The test "`/d/` occurs or the path starts with `d/`" holds exactly when some directory part (any part but the last) equals `d`. |
| Admission.UnderExcludedDirIff | repo2docs/repo_to_text.py:244-257 | The excluded-directory rule rejects a path exactly when one of its directory parts is one of the twelve excluded names. |
| Admission.AdmissionByParts | repo2docs/repo_to_text.py:233-240 | A path is admitted by `IsValidFile` exactly when all of these hold: it has a supported extension; no part starts with `.`; "test" does not occur in the lowercased path; no directory part is excluded; no boilerplate name occurs. The rule on a trailing `/` is implied by the extension. |
| Admission.SupportedNotSlash | repo2docs/repo_to_text.py:236-237 | A path with a supported extension never ends in `/`. |
| Admission.LatestIsRejected | repo2docs/repo_to_text.py:267 | `latest.py` is rejected: the "test" rule is a plain substring test. |
| Admission.PartOfLongerNameIsNotExcluded | repo2docs/repo_to_text.py:268-272 | `mydocs/a.py` passes the excluded-directory rule and is admitted, while `src/docs/a.py` is caught by it and rejected. |
| Admission.AdmittedExtension | repo2docs/repo_to_text.py:15-25 | Every admitted path has one of the nine extensions as its `splitext` extension. |
| Admission.AdmittedMarker | repo2docs/repo_to_text.py:102-110 | An admitted path gets the `CommentSyntax` marker `#` exactly when it ends in `.py`, and `//` otherwise; never the empty marker. |
| Admission.MarkerOfExtension | repo2docs/repo_to_text.py:102-110 | For an allow-listed extension the marker is `#` exactly for `.py`, and `//` for every other one. |
| Admission.NoExcludedPart | repo2docs/repo_to_text.py:244-257 | A path none of whose directory parts is an excluded name passes the excluded-directory rule. |
| Admission.DocsIsExcluded | repo2docs/repo_to_text.py:268-272 | `src/docs/a.py` is rejected, because one of its directories is `docs`. |
| LineBreaks.Collapse | repo2docs/repo_to_text.py:127-131 | The collapse never lengthens its input. |
| LineBreaks.CollapseNoTriple | repo2docs/repo_to_text.py:127-131 | The output holds no three consecutive newlines. |
| LineBreaks.CollapseLead | repo2docs/repo_to_text.py:127-131 | A leading run of n newlines becomes a run of min(n, 2). |
| LineBreaks.NoTripleIff | repo2docs/repo_to_text.py:131 | Having no three newlines in a row at any index is the same as not containing `"\n\n\n"`. |
| LineBreaks.CollapseKeepsClean | repo2docs/repo_to_text.py:127-131 | Text without a run of three newlines is returned unchanged. |
| LineBreaks.CollapseFixedIff | repo2docs/repo_to_text.py:127-131 | The collapse leaves its input unchanged exactly when the input does not contain `"\n\n\n"`. |
| LineBreaks.CollapseIdempotent | repo2docs/repo_to_text.py:127-131 | Collapsing twice is collapsing once. |
| LineBreaks.CollapseKeepsText | repo2docs/repo_to_text.py:127-131 | Deleting all newlines from the input and from the output gives the same text. |
| Comments.FindFrom | repo2docs/repo_to_text.py:178 | The first occurrence of the closer at or after a position, or -1, with no earlier occurrence (the lazy `*?`). |
| Comments.StopAt | repo2docs/repo_to_text.py:177 | The first stop character at or after a position, or the end: `.*` stops at the newline. |
| Comments.MatchLen | repo2docs/repo_to_text.py:176-190 | The length of the alternative that matches at the start, tried in the order written; it is bounded by the text, and it is non-zero only at an opener character. |
| Comments.RemoveComments | repo2docs/repo_to_text.py:171-192 | The stripped text is never longer than the input. |
| Comments.NoOpenerUnchanged | repo2docs/repo_to_text.py:176-190 | A text holding no `/`, no `#`, no `'''` and no `"""` is returned unchanged. |
| Comments.LineCommentRemoved | repo2docs/repo_to_text.py:177 | A `//` comment is removed up to, but not including, the next newline. |
| Comments.LineCommentAtEnd | repo2docs/repo_to_text.py:177 | A `//` comment that runs to the end of the text is removed with nothing left. |
| Comments.HashCommentRemoved | repo2docs/repo_to_text.py:179 | A `#` comment is removed up to, but not including, the next newline, whatever the file's language. |
| Comments.BlockCommentRemoved | repo2docs/repo_to_text.py:178 | A closed `/* ... */` comment is removed entirely. |
| Comments.UnclosedBlockKept | repo2docs/repo_to_text.py:178 | An unclosed `/*` is not a match: its `/` is kept and scanning resumes at the `*`. |
| SourceLines.Lines | repo2docs/repo_to_text.py:164 | Splitting on `\n` yields at least one line, and joining the lines with `\n` gives the text back. |
| SourceLines.PySliceLines | repo2docs/repo_to_text.py:162-164 | For 1-based lines `s <= e` within the file, `lines[s-1:e]` is lines `s` through `e` inclusive: `e - s + 1` lines, starting with line `s`. |
| SourceLines.PySliceAppend | repo2docs/repo_to_text.py:214 | Adjacent in-range slices put together are the slice spanning both. |
| SourceLines.PySliceFromEnd | repo2docs/repo_to_text.py:212-214 | A negative start `-k` takes the last `k` elements, and the whole list once `k` reaches its length. |
| SourceLines.PySliceEmpty | repo2docs/repo_to_text.py:212-214 | A start at or past the end, or a stop at or before a non-negative start, gives the empty list, with no error. |
| SourceLines.ContentStartIs | repo2docs/repo_to_text.py:227 | `strip` drops from the front exactly the leading whitespace: everything skipped is whitespace, and the first character kept is not. |
| SourceLines.ContentEndIs | repo2docs/repo_to_text.py:227 | `strip` drops from the back exactly the trailing whitespace: everything cut is whitespace, and the last character kept is not. |
| SourceLines.StripLast | repo2docs/repo_to_text.py:227 | The stripped line is non-empty exactly when the line has a visible character. Its last character is the line's last visible one, so it ends in `;` (or `}`) exactly when that character is `;` (or `}`). |
| SourceLines.EndsDeclarationIsStripTest | repo2docs/repo_to_text.py:227 | The declaration-end test on a line agrees with `line.strip().endswith(";") or line.strip().endswith("}")`. |
| SourceLines.LastVisibleIs | repo2docs/repo_to_text.py:227 | A `;` or `}` followed only by whitespace is the line's last visible character. |
| SourceLines.FirstEnd | repo2docs/repo_to_text.py:226-229 | The scan stops at the first line from the start index that ends a declaration; no line before it does. If it runs off the end, no line from the start index on does. |
| SourceLines.EndsDeclarationIff | repo2docs/repo_to_text.py:227 | A line ends a declaration exactly when its last non-blank character is `;` or `}`. |
| SourceLines.EndLine | repo2docs/repo_to_text.py:221-231 | The end is `i+1` for the first line `i` at or after the start line that ends a declaration; if there is none it is the start line; it lies between the start line and the line count. |
| SourceLines.FindEndLine | repo2docs/repo_to_text.py:221-231 | The scan with `break` returns the end line `EndLine` describes. |
| SourceLines.NoEndLeadsTo | repo2docs/repo_to_text.py:224-231 | With no ending line after the start, the result is the start line itself. |
| SourceLines.FirstEndLeadsTo | repo2docs/repo_to_text.py:226-229 | The first ending line `i` gives `i + 1`. |
| Reducers.KeptPySources | repo2docs/repo_to_text.py:138-143 | The Python reducer keeps at most one text per node. |
| Reducers.CleanPythonFile | repo2docs/repo_to_text.py:133-145 | The append loop yields the kept node texts joined by newlines; a parse failure is `PythonSyntaxError`. |
| Reducers.KeptPySourcesIff | repo2docs/repo_to_text.py:138-143 | A text is kept exactly when some import, class, function or assignment node has it. |
| Reducers.KeptPySourcesAppend | repo2docs/repo_to_text.py:138-143 | Nodes are kept in visiting order: the result for two runs of nodes is the two results concatenated. |
| Reducers.CleanJavaScriptFile | repo2docs/repo_to_text.py:147-169 | The loop yields the clamped line slices of the function, class and variable declarations in body order, joined by newlines. On a parse failure the result is the comment-stripped text. |
| Reducers.JsKeptLinesFromSource | repo2docs/repo_to_text.py:153-164 | Every kept line is a line of the file. |
| Reducers.JsWholeFile | repo2docs/repo_to_text.py:162-166 | One declaration spanning the whole file keeps the file unchanged. |
| Reducers.JsNothingKept | repo2docs/repo_to_text.py:153-166 | A script without declarations reduces to nothing. |
| Reducers.CleanCFile | repo2docs/repo_to_text.py:194-219 | The loop yields, per kept C node, the lines from its coordinate to `_find_end_line`, joined by newlines. On a parse failure the result is the text unchanged. |
| Reducers.CKeptLinesFromSource | repo2docs/repo_to_text.py:201-214 | Every kept C line is a line of the file. |
| Reducers.CSliceTakesNextEnd | repo2docs/repo_to_text.py:212-214 | When the line after the coordinate ends a declaration, exactly two lines are kept. The coordinate's own line is never tested. |
| Reducers.CSliceNoEnd | repo2docs/repo_to_text.py:212-214 | With no ending line after the coordinate, only the coordinate's line is kept. |
| Reducers.CollapseClean | repo2docs/repo_to_text.py:124 | Any text collapsed as the last cleaning step holds no `"\n\n\n"`. |
| Reducers.CleanedForExt | repo2docs/repo_to_text.py:114-125 | Cleaning depends on the path only through its extension. It fails exactly for `.py` text the parser rejects, and never leaves three newlines in a row. |
| Reducers.CleanedContent | repo2docs/repo_to_text.py:112-125 | Cleaning fails exactly for a `.py` file the parser rejects, and then with `PythonSyntaxError`. A successful cleaning never holds three newlines in a row. |
| Reducers.CleanFileContent | repo2docs/repo_to_text.py:112-125 | The extension dispatch followed by the collapse computes `CleanedContent`. |
| Reducers.CFallbackUnchanged | repo2docs/repo_to_text.py:217-219 | A C file the parser rejects, with no run of three newlines, comes through cleaning unchanged. |
| Digest.ProcessEntry | repo2docs/repo_to_text.py:92-99 | One pass of the loop body appends nothing for a rejected entry. For an admitted entry it appends the header, the cleaned text and `"\n\n"`, or it stops with the decode or parse error. |
| Digest.ProcessEntries | repo2docs/repo_to_text.py:88-100 | The append loop over the entries yields exactly the digest function: the first decode or parse failure, or else the in-order concatenation of each admitted entry's header, cleaned text and `"\n\n"`. |
| Digest.DigestOkIff | repo2docs/repo_to_text.py:88-100 | The digest succeeds exactly when every entry is rejected or decodes and cleans. |
| Digest.DigestErrFirst | repo2docs/repo_to_text.py:88-100 | A failing digest reports the failure of the first failing entry. |
| Digest.RejectedContributesNothing | repo2docs/repo_to_text.py:92 | A rejected entry changes nothing. |
| Digest.AdmittedMembers | repo2docs/repo_to_text.py:91-92 | The filtered list holds exactly the entries the test accepts: each kept entry is an accepted entry, and each accepted entry is kept. |
| Digest.AdmittedAppend | repo2docs/repo_to_text.py:91-92 | Filtering distributes over concatenation, so kept entries keep their order. |
| Digest.NothingAdmittedDigestEmpty | repo2docs/repo_to_text.py:88-100 | When the test rejects every entry, the digest is empty, whatever the entries hold. |
| Digest.DigestOfAdmitted | repo2docs/repo_to_text.py:92 | Dropping the rejected entries first does not change the digest. |
| Digest.DigestAppend | repo2docs/repo_to_text.py:90-100 | The digest of two runs of entries is the first followed by the second, unless the first fails. |
| Digest.DigestIsSections | repo2docs/repo_to_text.py:88-100 | When every entry succeeds, the digest is the concatenation of the sections of exactly the admitted entries, in order. |
| Digest.AdmittedHeader | repo2docs/repo_to_text.py:94 | The header of an admitted path is `# File: <path>\n` for Python and `// File: <path>\n` otherwise. |
| DirWalk.Pruned | repo2docs/repo_to_text.py:46 | A subdirectory survives pruning exactly when it was listed and its name is not ignored. |
| DirWalk.PrunedAppend | repo2docs/repo_to_text.py:46 | Pruning distributes over concatenation, so the survivors keep their order. |
| DirWalk.PrunedKeepsAll | repo2docs/repo_to_text.py:46 | A list with no ignored name is kept whole. |
| DirWalk.PrunedIdempotent | repo2docs/repo_to_text.py:46 | Pruning twice is pruning once. |
| DirWalk.WalkAvoidsIgnored | repo2docs/repo_to_text.py:45-46 | Every file the walk reaches lies below the starting directory, and the walk enters no directory with an ignored name. |
| DirWalk.SubdirsAvoidIgnored | repo2docs/repo_to_text.py:45-46 | The walks of the surviving subdirectories reach only files below them, through no ignored name. |
| DirWalk.WalkReachesAll | repo2docs/repo_to_text.py:45-47 | With nothing ignored, the walk reaches as many files as the tree holds. |
| DirWalk.WalkSubdirsReachAll | repo2docs/repo_to_text.py:45-47 | With nothing ignored, the subdirectory walks together yield as many files as the subdirectories hold. |
| DirWalk.WalkComplete | repo2docs/repo_to_text.py:45-47 | Every file below the top that lies in no ignored directory is reached, under the directory names that lead to it. |
| DirWalk.SubdirWalkIncluded | repo2docs/repo_to_text.py:45-47 | What the walk finds below a surviving subdirectory is part of the walk of its parent. |
| DirWalk.WalkSound | repo2docs/repo_to_text.py:45-47 | Every file the walk yields is reached from the top along its directory names, none of them ignored. |
| DirWalk.SubdirsSound | repo2docs/repo_to_text.py:45-47 | Every file the subdirectory walks yield is reached from the parent through one of the surviving subdirectories. |
| Markdown.FileLanguage | repo2text/repo2text.py:289-303 | The tag is non-empty exactly when the extension is one of the nine supported ones. |
| Markdown.LanguageOfSuffix | repo2text/repo2text.py:291-303 | A path ending in a supported extension gets that extension's table entry; for example `.h` gives `c` and `.hpp` gives `cpp`. |
| Markdown.AdmittedLanguage | repo2text/repo2text.py:319-325 | Every admitted file gets a non-empty tag. The tag is `python` exactly when the digest marker is `#`. |
| Markdown.LanguageMatchesMarker | repo2text/repo2text.py:289-303 | For an allow-listed extension the tag is non-empty, and it is `python` exactly when the digest marker is `#`. |
| Markdown.LanguageTable | repo2text/repo2text.py:291-301 | The table gives every allow-listed extension a non-empty tag, and only `.py` is tagged `python`. |
| Markdown.FilePieces | repo2text/repo2text.py:319-331 | A walked file adds four pieces or none. |
| Markdown.ProcessFilesToMarkdown | repo2text/repo2text.py:305-342 | The walk loop yields the pieces of every admitted, readable file in walk order, joined with `\n`. |
| Markdown.MarkdownPiecesAppend | repo2text/repo2text.py:315-331 | The pieces of two runs of files are the first run's pieces followed by the second's. |
| Markdown.PiecesComeInFours | repo2text/repo2text.py:328-331 | The piece list holds four pieces per shown file, each group starting with a `## ` heading. |
| Markdown.HeadedAppend | repo2text/repo2text.py:328-331 | Appending one file's four pieces, or none, keeps the groups of four headed. |
| Markdown.FileSection | repo2text/repo2text.py:328-342 | Once joined, one file reads `## path`, a blank line, the tagged fence, the text, the closing fence and a blank line. |
| Markdown.SectionText | repo2text/repo2text.py:328-342 | The four pieces of a shown file joined with `"\n"` give that layout, for any path, tag and text. |
| PathRules.CommonPrefix | repo2docs/repo_to_text.py:261 | The longest common prefix of two name lists: the lists agree up to it and differ just after it. |
| PathRules.SplitJoin | repo2docs/repo_to_text.py:265 | Splitting a joined list of separator-free names gives the names back. |
| PathRules.SplitConcat | repo2docs/repo_to_text.py:265 | Splitting at an inserted separator splits the two sides independently. |
| PathRules.JoinAllIsPathJoin | repo2docs/repo_to_text.py:48 | Joining the walk's directory names and then the file name onto the top is joining the `/`-joined relative path onto it. |
| PathRules.ResolveAppend | repo2docs/repo_to_text.py:261 | Normalising two runs of names is normalising the second on the result of the first. |
| PathRules.ResolveNames | repo2docs/repo_to_text.py:261 | Plain names are appended unchanged by normalisation. |
| PathRules.JoinShape | repo2docs/repo_to_text.py:48 | Below a non-empty top, the joined path is the top without its trailing `/`, then `/`, then the second part. It starts with `/` exactly when the top does. |
| PathRules.LastOfJoin | repo2docs/repo_to_text.py:48 | A joined path ends with the last character of its second part. |
| PathRules.AbsPartsOfJoin | repo2docs/repo_to_text.py:261 | The absolute form of a joined path is the top's absolute form followed by the names. |
| PathRules.RelPathOfJoin | repo2docs/repo_to_text.py:58 | `relpath` (`RelPathFrom`) of a walked file's joined path (`PathJoin`) against the top is its `/`-joined relative path. |
| PathRules.ExtAfterSep | repo2docs/repo_to_text.py:104 | A directory prefix does not change the extension. |
| PathRules.FullAndRelative | repo2docs/repo_to_text.py:237 | The full path and the relative path have the same extension and pass or fail the extension test together. |
| PathRules.AdmissionOfRelative | repo2docs/repo_to_text.py:233-240 | If the relative path is what `relpath` yields, the test as written (`AdmittedAsWritten`) on the full path agrees with `IsValidFile` on the relative path. |
| PathRules.WalkedFileAdmission | repo2docs/repo_to_text.py:48-62 | For a walked file, `relpath` is its relative path, and the admission test on the full path is `IsValidFile` on the relative one. The marker and the cleaning chosen from either path are equal. |
| PathRules.SameExtSameCleaning | repo2docs/repo_to_text.py:102-125 | Paths with the same extension get the same marker and the same cleaning. |
| PathRules.RelPathLeavesStart | repo2docs/repo_to_text.py:261 | A path that does not lie below the start directory gets a relative path starting with `..`. |
| PathRules.DotStartRejected | repo2docs/repo_to_text.py:264-266 | A relative path starting with `..` fails the dot-segment rule. |
| PathRules.OutsideIsRejected | repo2docs/repo_to_text.py:261-266 | A path outside the start directory is rejected by the test as written. |
| PathRules.MemberOutsideArchive | repo2docs/repo_to_text.py:261 | The member `mydocs/a.py` does not lie below `repository.zip`, whatever the working directory. |
| PathRules.ArchiveMemberRejected | repo2docs/repo_to_text.py:88-100 | `mydocs/a.py` is a valid file by name, yet the test as written rejects it as a member of `repository.zip`. |
| PathRules.AsWrittenDigestEmpty | repo2docs/repo_to_text.py:88-100 | With the test as written (`AdmittedAsWritten`), an archive none of whose members lies below the archive's own path yields the empty digest. |
| PathRules.ResolveExtends | repo2docs/repo_to_text.py:261 | Normalising parts none of which is `..` only appends names. |
| PathRules.ForeignTopRejected | repo2docs/repo_to_text.py:261-266 | With `repo_path` relative, its first part a name and no `..` in it, a member of plain names under a different top-level name is outside `repo_path` and is rejected as written. |
| PathRules.ForeignMembersDigestEmpty | repo2docs/repo_to_text.py:88-100 | As written, an archive whose members are directories or files under a top-level name other than the first part of such a `repo_path` yields the empty digest. |
| Processor.RepoDigestDispatch | repo2docs/repo_to_text.py:32-39 | `process_repo` digests a path starting with `http` as a URL, even one ending in `.zip`; otherwise a `.zip` path as a local archive; anything else as a directory, the only source the ignored names reach. |
| Processor.DirectoryEntriesComplete | repo2docs/repo_to_text.py:45-58 | Every file below the top that lies in no ignored directory is offered, under its `/`-joined relative path and with its content. |
| Processor.RepoProcessor.constructor | repo2docs/repo_to_text.py:27-30 | The processor keeps the path, the output file and the ignored names it is given. |
| Processor.RepoProcessor.ProcessRepo | repo2docs/repo_to_text.py:32-39 | Processing yields the digest of the source the path names, with archive members admitted by member name (see Left out). Afterwards the path is rewritten for a URL and unchanged otherwise. |
| Processor.RepoProcessor.ProcessUrl | repo2docs/repo_to_text.py:63-70 | A folder URL is rewritten in place. The archive fetched from the rewritten address plus `/archive/master.zip` is digested, with members admitted by member name (see Left out). A body that is not an archive is reported against that address. |
| Processor.RepoProcessor.ProcessZip | repo2docs/repo_to_text.py:72-86 | A missing archive gives `ZipNotFound` and a corrupt one `BadZip`, both naming the path. Otherwise the members are digested, admitted by member name (see Left out). |
| Processor.RepoProcessor.ProcessDirectory | repo2docs/repo_to_text.py:41-61 | The directory's pruned walk is digested. |
| Processor.RewriteKeepsUrl | repo2docs/repo_to_text.py:65-66 | A rewritten URL is still dispatched as a URL, still holds `/tree/`, and ends with the original. |
| Processor.ServicePrefix | repo2docs/repo_to_text.py:66 | Prefixing the service address keeps `http`, the original text at the end, and every `/tree/`. |
| Processor.RewriteTwice | repo2docs/repo_to_text.py:65-66 | The rewrite is not idempotent: rewriting a rewritten folder URL prefixes the service address a second time. |
| Processor.ArchiveUrlShape | repo2docs/repo_to_text.py:68 | The fetched address starts with the rewritten URL, ends with the original followed by `/archive/master.zip`, and is itself a URL. |
| Processor.IgnoreDirsOnlyPruneWalk | repo2docs/repo_to_text.py:46 | The ignored names change nothing for URL or zip input. |
| Processor.ZipSections | repo2docs/repo_to_text.py:72-100 | When every member of an archive succeeds, its digest is the sections of exactly the members whose names are valid, in `namelist()` order. |
| Processor.UrlSections | repo2docs/repo_to_text.py:63-100 | Likewise for the archive behind a URL. |
| Processor.ZipDigestAsWritten | repo2docs/repo_to_text.py:72-100 | `_process_zip` with the test as written: a missing or corrupt archive gives the same error as `ZipDigest`. |
| Processor.UrlDigestAsWritten | repo2docs/repo_to_text.py:63-100 | `_process_url` with the test as written, against the rewritten URL: a body that is not an archive gives the same error as `UrlDigest`. |
| Processor.ZipMembersRejected | repo2docs/repo_to_text.py:72-100 | As written, a local archive at a relative path without `..` yields the empty digest when its members are directories or lie under a top-level name other than the path's first part. |
| Processor.UrlMembersRejected | repo2docs/repo_to_text.py:63-100 | As written, the archive of an `https://` URL (with no `..` part) yields the empty digest when its members are directories or lie under a top-level name other than `https:`, as GitHub's `<repository>-<branch>/` layout does. |
| Processor.RewriteKeepsHttps | repo2docs/repo_to_text.py:65-66 | The rewrite keeps an `https://` URL starting with `https://`. |
| Processor.HttpsFirstPart | repo2docs/repo_to_text.py:261 | An `https://` URL splits into the name `https:` first. |
| Processor.SingleEntryDigest | repo2docs/repo_to_text.py:92-99 | One admitted entry that decodes and cleans yields its own section. |
| Processor.ArchiveMemberLost | repo2docs/repo_to_text.py:88-100 | Take `repository.zip` holding only `mydocs/a.py`. The digest is empty with the test as written, and that file's section when members are admitted by name. |
| Processor.DirectoryEntriesSound | repo2docs/repo_to_text.py:45-54 | Conversely, each offered entry is a file reached from the top, named by its relative path and carrying its content, and none lies below an ignored directory name. |
| Processor.DirectoryAdmissionAgrees | repo2docs/repo_to_text.py:48-62 | For a walked file with plain names, the test on the full path agrees with `IsValidFile` on the relative path, and `relpath` gives that relative path. The marker, the cleaning and the language tag from either path agree. |

Both copies of `RepoProcessor` are covered by these rows:
- `repo2text/repo2text.py:17-284` matches `repo2docs/repo_to_text.py:13-279` apart from two docstrings.
- `process_files_to_markdown` applies `_is_valid_file` to the full path against `dir_path` (`repo2text/repo2text.py:310`, `repo2text/repo2text.py:319`).
- `Processor.DirectoryAdmissionAgrees` proves that this test is `IsValidFile` on the relative path. The Markdown model uses that form.

Three behaviours of the code worth noting:
- The excluded list names `__pycache__`.
- The ignored directory names only prune the directory walk. They are not part of the admission test, and they do nothing for archives.
- A Python file the parser rejects is not caught: the exception ends the whole digest, modelled as `Err(PythonSyntaxError)`.

## Left out

- The parsers (`ast.parse`, `ast.walk`, `ast.unparse`, `esprima.parseScript`, `pycparser`) are foreign code. They are parameters: the nodes in visiting order, or `None` on failure.
  - Only the JavaScript reducer's `except Exception` is modelled, and only as a parse failure.
  - An error raised while slicing cannot occur with clamped slices.
- Network and archive I/O are out:
  - `requests.get` and its failures, HTTP status codes and timeouts are not modelled;
  - a fetched body is an archive or is not one (`BadZip` against the fetched address);
  - `zipfile` decompression errors are not modelled;
  - a member's bytes are given already decoded, or `None` when UTF-8 decoding fails, which aborts the digest as `Undecodable`.
- The `print` plus `sys.exit(1)` of `_process_zip` becomes an `Err` value (`ZipNotFound`, `BadZip`). No message or exit status is modelled.
- Output is out:
  - `process_files_to_markdown` creates the output directory, writes the file and logs; the model returns the text it would write;
  - a file whose read fails is skipped, as the logged exception does;
  - `output_file` is stored and never used by the digest.
- `os.walk` is a tree value. Symbolic links, the `onerror` callback, and changes to the file system during the walk are not modelled.
  - The in-place `dirs[:] = ...` is modelled as the pruned list the walk descends into, not as an update of a shared list.
- `os.path.relpath` and `normpath`:
  - The working directory is a list of plain names.
  - POSIX's special case of a leading `//` is not modelled.
  - `relpath` raising on an empty path cannot be reached, because the extension test runs first.
  - The path separator is `/` throughout.
- `str.lower` is modelled on ASCII letters only. Other characters are kept.
- `DirWalk.WalkReachesAll` and `DirWalk.WalkSubdirsReachAll` count the files reached. Which files are reached is stated by `DirWalk.WalkComplete` and `DirWalk.WalkSound`; that no file is reached twice is not stated.
- Processor.RepoProcessor.ProcessZip admits archive members with `IsValidFile` on the member name, the corrected rule of the finding below. The test as written is modelled by `Processor.ZipDigestAsWritten`.
- Processor.RepoProcessor.ProcessUrl admits the fetched archive's members with `IsValidFile` on the member name, the corrected rule of the finding below. The test as written is modelled by `Processor.UrlDigestAsWritten`.
- Processor.RepoProcessor.ProcessRepo reaches the two archive sources through the methods above and inherits their corrected admission.
- The CLI and interactive front ends, the LLM clients, the prompt texts and the prompt loader are not part of this model. They are plumbing around `RepoProcessor`.

## Findings

| source | as written | input that shows it | evidently intended | confidence | as-written member | corrected member |
|---|---|---|---|---|---|---|
| repo2docs/repo_to_text.py:261 | For a local archive, `_process_files` passes each member name to `_is_valid_file`, whose usefulness rules see `os.path.relpath(member, repo_path)`: a path relative to the archive file itself. A member that does not lie below that path gets a relative path starting with `..`, which the dot-segment rule rejects. For an archive at a relative path, every member under a top-level name other than the path's first part is rejected, so the digest comes out empty (`Processor.ZipMembersRejected`). | repo_path `repository.zip` with the single member `mydocs/a.py`: relpath gives `../mydocs/a.py`, so the member is rejected (`Processor.ArchiveMemberLost`). | The usefulness rules apply to the member name, which is already relative to the archive root. | high; not executed | Processor.ZipDigestAsWritten | Processor.ZipSections |
| repo2docs/repo_to_text.py:261 | For a URL the same rules see the member name relative to the URL string held in `repo_path`. Every member under a top-level name other than `https:` lies outside it and is rejected, so the digest of a GitHub archive comes out empty (`Processor.UrlMembersRejected`). | repo_path `https://github.com/o/r` whose archive holds `r-master/` and `r-master/main.py`: relpath of the file starts with `..`, so it is rejected. | As for a local archive. | high; not executed | Processor.UrlDigestAsWritten | Processor.UrlSections |
