// `process_files_to_markdown` and `get_file_language`: walk the directory,
// and for every admitted file that opens as UTF-8 text append a heading with
// its relative path, an opening code fence tagged with the file's language,
// the text, and a closing fence; the document is the pieces joined with
// "\n". A file that fails to open is skipped (the failure is only logged).
module Markdown {
  import opened TextOps
  import opened Outcomes
  import opened Admission
  import opened DirWalk

  /** The language tag of each allow-listed extension. */
  const Languages: map<string, string> :=
    map[".py" := "python", ".js" := "javascript", ".jsx" := "jsx",
        ".ts" := "typescript", ".tsx" := "tsx", ".c" := "c", ".cpp" := "cpp",
        ".h" := "c", ".hpp" := "cpp"]

  /** `get_file_language`: the tag of the path's extension, or "" for an
      extension outside the table. */
  function FileLanguage(path: string): (lang: string)
    ensures lang != "" <==> Ext(path) in SupportedExtensions
  {
    var ext := Ext(path);
    LanguageEntry(ext);
    if ext in Languages then Languages[ext] else ""
  }

  /** The table has an entry, never empty, for exactly the allow-listed
      extensions. */
  lemma LanguageEntry(ext: string)
    ensures ext in Languages <==> ext in SupportedExtensions
    ensures ext in Languages ==> Languages[ext] != ""
  {
  }

  /** The pieces one walked file adds to the document. */
  function FilePieces(w: Walked): (r: seq<string>)
    ensures |r| == 0 || |r| == 4
  {
    var path := RelativePath(w);
    if IsValidFile(path) && w.file.content.Some? then
      ["## " + path + "\n", "```" + FileLanguage(path), w.file.content.value, "```\n\n"]
    else []
  }

  /** The pieces of a run of walked files, in walk order. */
  function MarkdownPieces(ws: seq<Walked>): seq<string>
    decreases |ws|
  {
    if |ws| == 0 then [] else MarkdownPieces(ws[..|ws| - 1]) + FilePieces(ws[|ws| - 1])
  }

  /** The document written for the tree below the given directory. */
  function MarkdownOf(t: Tree, ignore: seq<string>): string {
    JoinWith(MarkdownPieces(WalkTree(t, [], ignore)), "\n")
  }

  /** `process_files_to_markdown`, returning the text it writes to the output
      file. */
  method ProcessFilesToMarkdown(t: Tree, ignore: seq<string>) returns (markdown: string)
    ensures markdown == MarkdownOf(t, ignore)
  {
    var walked := WalkTree(t, [], ignore);
    var markdownContent: seq<string> := [];
    var i := 0;
    while i < |walked|
      invariant i <= |walked|
      invariant markdownContent == MarkdownPieces(walked[..i])
    {
      var w := walked[i];
      var filePath := RelativePath(w);
      if IsValidFile(filePath) {
        match w.file.content {
          case None =>
          case Some(fileContent) =>
            var language := FileLanguage(filePath);
            markdownContent := markdownContent
              + ["## " + filePath + "\n", "```" + language, fileContent, "```\n\n"];
        }
      }
      PiecesStep(walked, i);
      i := i + 1;
    }
    assert walked[..i] == walked;
    markdown := JoinWith(markdownContent, "\n");
  }

  /** One more walked file adds its own pieces at the end. */
  lemma PiecesStep(ws: seq<Walked>, i: nat)
    requires i < |ws|
    ensures MarkdownPieces(ws[..i + 1]) == MarkdownPieces(ws[..i]) + FilePieces(ws[i])
  {
    assert ws[..i + 1][..i] == ws[..i];
  }

  // ---------------------------------------------------------------------
  // Properties

  /** A path ending in an allow-listed extension, with no part that starts
      with a dot, is tagged with that extension's entry of the table. */
  lemma LanguageOfSuffix(path: string, e: string)
    requires e in SupportedExtensions && EndsWith(path, e)
    requires !StartsWith(path, ".") && !Contains(path, "/.")
    ensures FileLanguage(path) == Languages[e]
  {
    SupportedAreSimple();
    ExtOfSuffix(path, e);
  }

  /** Every admitted file gets a non-empty tag, and the tag is "python"
      exactly when the digest marks the file with "#". */
  lemma AdmittedLanguage(path: string)
    requires IsValidFile(path)
    ensures FileLanguage(path) != ""
    ensures FileLanguage(path) == "python" <==> CommentSyntax(path) == "#"
  {
    AdmittedExtension(path);
    LanguageMatchesMarker(path);
  }

  /** For an allow-listed extension the tag is non-empty, and it is "python"
      exactly when the digest marker is "#". */
  lemma LanguageMatchesMarker(path: string)
    requires Ext(path) in SupportedExtensions
    ensures FileLanguage(path) != ""
    ensures FileLanguage(path) == "python" <==> CommentSyntax(path) == "#"
  {
    LanguageTable();
  }

  /** Every allow-listed extension has a non-empty tag, and only ".py" is
      tagged "python". */
  lemma LanguageTable()
    ensures forall e :: e in SupportedExtensions ==>
      e in Languages && Languages[e] != "" && (Languages[e] == "python" <==> e == ".py")
  {
  }

  /** The pieces of two runs of files are the pieces of the first run
      followed by those of the second. */
  lemma {:induction false} MarkdownPiecesAppend(a: seq<Walked>, b: seq<Walked>)
    ensures MarkdownPieces(a + b) == MarkdownPieces(a) + MarkdownPieces(b)
    decreases |b|
  {
    if |b| == 0 {
      assert a + b == a;
    } else {
      var b' := b[..|b| - 1];
      assert (a + b)[..|a + b| - 1] == a + b';
      assert (a + b)[|a + b| - 1] == b[|b| - 1];
      MarkdownPiecesAppend(a, b');
    }
  }

  /** Every fourth piece, from the first, is a heading. */
  predicate Headed(p: seq<string>) {
    forall k :: 0 <= k < |p| && k % 4 == 0 ==> StartsWith(p[k], "## ")
  }

  /** The piece list holds four pieces per shown file: its length is a
      multiple of four, and each group of four starts with a heading. */
  lemma {:induction false} PiecesComeInFours(ws: seq<Walked>)
    ensures |MarkdownPieces(ws)| % 4 == 0 && Headed(MarkdownPieces(ws))
    decreases |ws|
  {
    if |ws| > 0 {
      PiecesComeInFours(ws[..|ws| - 1]);
      HeadedAppend(MarkdownPieces(ws[..|ws| - 1]), FilePieces(ws[|ws| - 1]));
    }
  }

  lemma HeadedAppend(init: seq<string>, last: seq<string>)
    requires |init| % 4 == 0 && Headed(init)
    requires last == [] || (|last| == 4 && StartsWith(last[0], "## "))
    ensures |init + last| % 4 == 0 && Headed(init + last)
  {
    var p := init + last;
    forall k | 0 <= k < |p| && k % 4 == 0 ensures StartsWith(p[k], "## ") {
      if k < |init| {
        assert p[k] == init[k];
      } else {
        assert k == |init|;
        assert p[k] == last[0];
      }
    }
  }

  /** The text one shown file contributes: its heading line, a blank line,
      the fence with the language tag, the file's text, and the closing
      fence followed by a blank line. */
  lemma FileSection(w: Walked)
    requires IsValidFile(RelativePath(w)) && w.file.content.Some?
    ensures var path := RelativePath(w);
      JoinWith(FilePieces(w), "\n")
        == "## " + path + "\n\n```" + FileLanguage(path) + "\n" + w.file.content.value + "\n```\n\n"
  {
    var path := RelativePath(w);
    var c := w.file.content.value;
    ShownPieces(w);
    SectionText(path, FileLanguage(path), c);
  }

  lemma SectionText(path: string, lang: string, c: string)
    ensures JoinWith(["## " + path + "\n", "```" + lang, c, "```\n\n"], "\n")
      == "## " + path + "\n\n```" + lang + "\n" + c + "\n```\n\n"
  {
    JoinFour("## " + path + "\n", "```" + lang, c, "```\n\n", "\n");
  }

  lemma ShownPieces(w: Walked)
    requires IsValidFile(RelativePath(w)) && w.file.content.Some?
    ensures var path := RelativePath(w);
      FilePieces(w) == ["## " + path + "\n", "```" + FileLanguage(path), w.file.content.value, "```\n\n"]
  {
  }

  lemma JoinFour(a: string, b: string, c: string, d: string, sep: string)
    ensures JoinWith([a, b, c, d], sep) == a + sep + b + sep + c + sep + d
  {
    var p := [a, b, c, d];
    assert p[1..] == [b, c, d] && p[1..][1..] == [c, d] && p[1..][1..][1..] == [d];
    assert JoinWith([c, d], sep) == c + sep + d;
    assert JoinWith([b, c, d], sep) == b + sep + (c + sep + d);
  }
}
