/** The per-language content reducers of `_clean_file_content` and its
    dispatch on the extension. The parsers themselves (`ast`, `esprima`,
    `pycparser`) are outside the model: each is a function from the file
    text to the nodes the reducer visits, or `None` when it rejects the text.
    For Python these are all nodes in `ast.walk` order, nested ones included,
    each with the text `ast.unparse` gives it; for JavaScript and C they are
    the top-level declarations with their line coordinates. */
module Reducers {
  import opened TextOps
  import opened Outcomes
  import opened SourceLines
  import opened LineBreaks
  import opened Comments
  import opened Admission

  datatype PyKind = Import | ImportFrom | ClassDef | FunctionDef | Assign | OtherPyNode

  /** A node in the order `ast.walk` visits it, with the text `ast.unparse`
      gives for it. */
  datatype PyNode = PyNode(kind: PyKind, source: string)

  datatype JsKind = FunctionDeclaration | ClassDeclaration | VariableDeclaration | OtherJsNode

  /** A statement of the script body with its first and last line (1-based). */
  datatype JsNode = JsNode(kind: JsKind, startLine: nat, endLine: nat)

  datatype CKind = FuncDef | Struct | Union | Enum | Typedef | OtherCNode

  /** A top-level node with the (1-based) line its coordinate names. */
  datatype CNode = CNode(kind: CKind, line: nat)

  datatype Parsers = Parsers(
    python: string -> Option<seq<PyNode>>,
    javascript: string -> Option<seq<JsNode>>,
    c: string -> Option<seq<CNode>>)

  // ---------------------------------------------------------------------
  // Python: keep the unparsed text of imports, classes, functions and
  // assignments, one per line. A parse failure is not caught.

  predicate KeptPy(n: PyNode) {
    n.kind != OtherPyNode
  }

  function KeptPySources(nodes: seq<PyNode>): (r: seq<string>)
    ensures |r| <= |nodes|
  {
    if |nodes| == 0 then []
    else
      var n := nodes[|nodes| - 1];
      KeptPySources(nodes[..|nodes| - 1]) + (if KeptPy(n) then [n.source] else [])
  }

  function PythonReduced(parsed: Option<seq<PyNode>>): Result<string> {
    match parsed
    case None => Err(PythonSyntaxError)
    case Some(nodes) => Ok(JoinLines(KeptPySources(nodes)))
  }

  /** `_clean_python_file`. */
  method CleanPythonFile(parsed: Option<seq<PyNode>>) returns (r: Result<string>)
    ensures r == PythonReduced(parsed)
  {
    if parsed.None? {
      return Err(PythonSyntaxError);
    }
    var nodes := parsed.value;
    var cleanedLines: seq<string> := [];
    var i := 0;
    while i < |nodes|
      invariant i <= |nodes|
      invariant cleanedLines == KeptPySources(nodes[..i])
    {
      assert nodes[..i + 1][..i] == nodes[..i];
      if KeptPy(nodes[i]) {
        cleanedLines := cleanedLines + [nodes[i].source];
      }
      i := i + 1;
    }
    assert nodes[..i] == nodes;
    return Ok(JoinLines(cleanedLines));
  }

  /** The kept texts are exactly those of the kept nodes, in node order. */
  lemma {:induction false} KeptPySourcesIff(nodes: seq<PyNode>, s: string)
    ensures s in KeptPySources(nodes) <==> exists n :: n in nodes && KeptPy(n) && n.source == s
    decreases |nodes|
  {
    if |nodes| > 0 {
      var init, n := nodes[..|nodes| - 1], nodes[|nodes| - 1];
      KeptPySourcesIff(init, s);
      assert nodes == init + [n];
      if exists m :: m in nodes && KeptPy(m) && m.source == s {
        var m :| m in nodes && KeptPy(m) && m.source == s;
        assert m in init || m == n;
      }
    }
  }

  lemma {:induction false} KeptPySourcesAppend(a: seq<PyNode>, b: seq<PyNode>)
    ensures KeptPySources(a + b) == KeptPySources(a) + KeptPySources(b)
    decreases |b|
  {
    if |b| == 0 {
      assert a + b == a;
    } else {
      var b', n := b[..|b| - 1], b[|b| - 1];
      assert (a + b)[..|a + b| - 1] == a + b';
      KeptPySourcesAppend(a, b');
    }
  }

  // ---------------------------------------------------------------------
  // JavaScript: keep the source lines of function, class and variable
  // declarations; on a parse failure strip comments instead.

  predicate KeptJs(n: JsNode) {
    n.kind != OtherJsNode
  }

  /** `lines[start - 1:end]` for one node. */
  function JsSlice(lines: seq<string>, n: JsNode): seq<string> {
    PySlice(lines, n.startLine - 1, n.endLine)
  }

  function JsKeptLines(lines: seq<string>, nodes: seq<JsNode>): seq<string> {
    if |nodes| == 0 then []
    else
      var n := nodes[|nodes| - 1];
      JsKeptLines(lines, nodes[..|nodes| - 1]) + (if KeptJs(n) then JsSlice(lines, n) else [])
  }

  function JsReduced(content: string, parsed: Option<seq<JsNode>>): string {
    match parsed
    case None => RemoveComments(content)
    case Some(nodes) => JoinLines(JsKeptLines(Lines(content), nodes))
  }

  /** `_clean_javascript_file`. */
  method CleanJavaScriptFile(content: string, parsed: Option<seq<JsNode>>) returns (r: string)
    ensures r == JsReduced(content, parsed)
  {
    if parsed.None? {
      return RemoveComments(content);
    }
    var nodes := parsed.value;
    var cleanedLines: seq<string> := [];
    var i := 0;
    while i < |nodes|
      invariant i <= |nodes|
      invariant cleanedLines == JsKeptLines(Lines(content), nodes[..i])
    {
      assert nodes[..i + 1][..i] == nodes[..i];
      var node := nodes[i];
      if KeptJs(node) {
        var startLine := node.startLine - 1;
        var endLine := node.endLine;
        cleanedLines := cleanedLines + PySlice(Lines(content), startLine, endLine);
      }
      i := i + 1;
    }
    assert nodes[..i] == nodes;
    return JoinLines(cleanedLines);
  }

  /** Every line the JavaScript reducer keeps is a line of the file. */
  lemma {:induction false} JsKeptLinesFromSource(lines: seq<string>, nodes: seq<JsNode>)
    ensures forall k :: 0 <= k < |JsKeptLines(lines, nodes)| ==> JsKeptLines(lines, nodes)[k] in lines
    decreases |nodes|
  {
    if |nodes| > 0 {
      JsKeptLinesFromSource(lines, nodes[..|nodes| - 1]);
    }
  }

  /** A declaration reported as spanning the whole file keeps the file
      unchanged. */
  lemma JsWholeFile(content: string, kind: JsKind)
    requires kind != OtherJsNode
    ensures JsReduced(content, Some([JsNode(kind, 1, |Lines(content)|)])) == content
  {
    var lines := Lines(content);
    var nodes := [JsNode(kind, 1, |lines|)];
    assert nodes[..0] == [];
    assert lines[0..|lines|] == lines;
    assert JsSlice(lines, nodes[0]) == lines;
    assert JsKeptLines(lines, nodes) == lines;
    assert JoinLines(lines) == content;
  }

  /** A parsed script without declarations reduces to the empty text. */
  lemma {:induction false} JsNothingKept(lines: seq<string>, nodes: seq<JsNode>)
    requires forall k :: 0 <= k < |nodes| ==> !KeptJs(nodes[k])
    ensures JsKeptLines(lines, nodes) == []
    decreases |nodes|
  {
    if |nodes| > 0 {
      JsNothingKept(lines, nodes[..|nodes| - 1]);
    }
  }

  // ---------------------------------------------------------------------
  // C and C++: keep, for each function, struct, union, enum and typedef,
  // the lines from its coordinate to the end `_find_end_line` finds; on a
  // parse error keep the content as it is.

  predicate KeptC(n: CNode) {
    n.kind != OtherCNode
  }

  /** `lines[line - 1:_find_end_line(node)]` for one node. */
  function CSlice(lines: seq<string>, n: CNode): seq<string> {
    PySlice(lines, n.line - 1, EndLine(lines, n.line))
  }

  function CKeptLines(lines: seq<string>, nodes: seq<CNode>): seq<string> {
    if |nodes| == 0 then []
    else
      var n := nodes[|nodes| - 1];
      CKeptLines(lines, nodes[..|nodes| - 1]) + (if KeptC(n) then CSlice(lines, n) else [])
  }

  function CReduced(content: string, parsed: Option<seq<CNode>>): string {
    match parsed
    case None => content
    case Some(nodes) => JoinLines(CKeptLines(Lines(content), nodes))
  }

  /** `_clean_c_cpp_file`. */
  method CleanCFile(content: string, parsed: Option<seq<CNode>>) returns (r: string)
    ensures r == CReduced(content, parsed)
  {
    if parsed.None? {
      return content;
    }
    var nodes := parsed.value;
    var lines := Lines(content);
    var cleanedLines: seq<string> := [];
    var i := 0;
    while i < |nodes|
      invariant i <= |nodes|
      invariant cleanedLines == CKeptLines(lines, nodes[..i])
    {
      CKeptStep(lines, nodes, i);
      var node := nodes[i];
      if KeptC(node) {
        var startLine := node.line - 1;
        var endLine := FindEndLine(content, node.line);
        cleanedLines := cleanedLines + PySlice(lines, startLine, endLine);
      }
      i := i + 1;
    }
    assert nodes[..i] == nodes;
    return JoinLines(cleanedLines);
  }

  lemma CKeptStep(lines: seq<string>, nodes: seq<CNode>, i: nat)
    requires i < |nodes|
    ensures CKeptLines(lines, nodes[..i + 1])
      == CKeptLines(lines, nodes[..i]) + (if KeptC(nodes[i]) then CSlice(lines, nodes[i]) else [])
  {
    assert nodes[..i + 1][..i] == nodes[..i];
  }

  /** Every line the C reducer keeps is a line of the file. */
  lemma {:induction false} CKeptLinesFromSource(lines: seq<string>, nodes: seq<CNode>)
    ensures forall k :: 0 <= k < |CKeptLines(lines, nodes)| ==> CKeptLines(lines, nodes)[k] in lines
    decreases |nodes|
  {
    if |nodes| > 0 {
      CKeptLinesFromSource(lines, nodes[..|nodes| - 1]);
    }
  }

  /** A node's block starts at its own line and runs to the first later line
      that ends a declaration: its own line is never tested, so a one-line
      declaration also takes the next line when that one ends in ';' or '}'. */
  lemma CSliceTakesNextEnd(lines: seq<string>, n: CNode)
    requires 1 <= n.line < |lines| && EndsDeclaration(lines[n.line])
    ensures CSlice(lines, n) == [lines[n.line - 1], lines[n.line]]
  {
    assert EndLine(lines, n.line) == n.line + 1;
  }

  /** With no line after it ending a declaration, a node keeps only its own
      line. */
  lemma CSliceNoEnd(lines: seq<string>, n: CNode)
    requires 1 <= n.line <= |lines| && NoEndIn(lines, n.line, |lines|)
    ensures CSlice(lines, n) == [lines[n.line - 1]]
  {
    NoEndLeadsTo(lines, n.line);
  }

  // ---------------------------------------------------------------------
  // Dispatch

  lemma CollapseClean(t: string)
    ensures !Contains(Collapse(t), "\n\n\n")
  {
    CollapseNoTriple(t);
    NoTripleIff(Collapse(t));
  }

  /** The cleaned content `_clean_file_content` returns for a file: the
      reducer its extension selects, then the blank-line collapse. Only a
      Python file the parser rejects fails. */
  function CleanedContent(path: string, content: string, parsers: Parsers): (r: Result<string>)
    ensures r.Err? <==> Ext(path) == ".py" && parsers.python(content).None?
    ensures r.Err? ==> r.error == PythonSyntaxError
    ensures r.Ok? ==> !Contains(r.value, "\n\n\n")
  {
    CleanedForExt(Ext(path), content, parsers)
  }

  /** The cleaning chosen by an extension; the path matters only through it. */
  function CleanedForExt(ext: string, content: string, parsers: Parsers): (r: Result<string>)
    ensures r.Err? <==> ext == ".py" && parsers.python(content).None?
    ensures r.Err? ==> r.error == PythonSyntaxError
    ensures r.Ok? ==> !Contains(r.value, "\n\n\n")
  {
    if ext == ".py" then
      match PythonReduced(parsers.python(content))
      case Err(e) => Err(e)
      case Ok(t) => CollapseClean(t); Ok(Collapse(t))
    else
      var t :=
        if ext in JsFamily then JsReduced(content, parsers.javascript(content))
        else if ext in CFamily then CReduced(content, parsers.c(content))
        else content;
      CollapseClean(t);
      Ok(Collapse(t))
  }

  /** `_clean_file_content`. */
  method CleanFileContent(path: string, content: string, parsers: Parsers) returns (r: Result<string>)
    ensures r == CleanedContent(path, content, parsers)
  {
    var ext := Ext(path);
    var cleaned: string;
    if ext == ".py" {
      var py := CleanPythonFile(parsers.python(content));
      if py.Err? {
        return Err(py.error);
      }
      cleaned := py.value;
    } else if ext in JsFamily {
      cleaned := CleanJavaScriptFile(content, parsers.javascript(content));
    } else if ext in CFamily {
      cleaned := CleanCFile(content, parsers.c(content));
    } else {
      cleaned := content;
    }
    CollapseClean(cleaned);
    return Ok(Collapse(cleaned));
  }

  /** A C or C++ file the parser rejects, and that holds no run of three
      newlines, comes through cleaning unchanged. */
  lemma CFallbackUnchanged(path: string, content: string, parsers: Parsers)
    requires Ext(path) in CFamily && parsers.c(content).None?
    requires !Contains(content, "\n\n\n")
    ensures CleanedContent(path, content, parsers) == Ok(content)
  {
    var ext := Ext(path);
    assert ext != ".py" && ext !in JsFamily;
    assert CReduced(content, parsers.c(content)) == content;
    CollapseFixedIff(content);
  }
}
