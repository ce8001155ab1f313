/** Line handling shared by the C and JavaScript reducers: splitting on '\n',
    joining with '\n', list slicing with Python's clamping rules, `str.strip`,
    and the forward scan of `_find_end_line`. */
module SourceLines {
  import opened TextOps

  /** `content.split("\n")`. */
  function Lines(content: string): (lines: seq<string>)
    ensures |lines| >= 1
    ensures JoinLines(lines) == content
  {
    JoinSplit(content, '\n');
    Split(content, '\n')
  }

  /** `"\n".join(lines)`. */
  function JoinLines(lines: seq<string>): string {
    JoinWith(lines, "\n")
  }

  /** Where a Python slice bound lands in a sequence of length n: a negative
      bound counts from the end, and the result is clamped to [0, n]. */
  function SliceBound(i: int, n: nat): (b: nat)
    ensures b <= n
    ensures 0 <= i <= n ==> b == i
    ensures i > n ==> b == n
    ensures i < 0 ==> b == (if i + n < 0 then 0 else i + n)
  {
    if i < 0 then (if i + n < 0 then 0 else i + n)
    else if i > n then n
    else i
  }

  /** `xs[i:j]` with Python's semantics: out-of-range bounds are clamped and
      a start at or past the end gives the empty list. */
  function PySlice<T>(xs: seq<T>, i: int, j: int): (r: seq<T>)
    ensures |r| <= |xs|
    ensures var lo, hi := SliceBound(i, |xs|), SliceBound(j, |xs|);
      if lo < hi then r == xs[lo..hi] else r == []
  {
    var lo, hi := SliceBound(i, |xs|), SliceBound(j, |xs|);
    if lo < hi then xs[lo..hi] else []
  }

  /** Adjacent in-range slices put together are the slice spanning both. */
  lemma PySliceAppend<T>(xs: seq<T>, a: int, b: int, c: int)
    requires 0 <= a <= b <= c <= |xs|
    ensures PySlice(xs, a, b) + PySlice(xs, b, c) == PySlice(xs, a, c)
  {
    if a == b {
      assert PySlice(xs, a, b) == [];
    } else if b == c {
      assert PySlice(xs, b, c) == [];
    } else {
      assert xs[a..b] + xs[b..c] == xs[a..c];
    }
  }

  /** The 1-based line range s..e, both ends included, as the reducers take
      it with `lines[s - 1:e]`: exactly e - s + 1 lines, the first being line
      s. */
  lemma PySliceLines<T>(xs: seq<T>, s: int, e: int)
    requires 1 <= s <= e <= |xs|
    ensures PySlice(xs, s - 1, e) == xs[s - 1..e]
    ensures |PySlice(xs, s - 1, e)| == e - s + 1
    ensures PySlice(xs, s - 1, e)[0] == xs[s - 1]
  {
  }

  /** A negative start counts from the end: `xs[-k:]` is the last k
      elements, and the whole list once k reaches its length. */
  lemma PySliceFromEnd<T>(xs: seq<T>, k: int)
    requires 0 < k
    ensures k <= |xs| ==> PySlice(xs, -k, |xs|) == xs[|xs| - k..]
    ensures k >= |xs| ==> PySlice(xs, -k, |xs|) == xs
  {
    if k >= |xs| && |xs| > 0 {
      assert xs[0..|xs|] == xs;
    }
  }

  /** A start at or past the end, or a stop at or before the start, gives
      the empty list. */
  lemma PySliceEmpty<T>(xs: seq<T>, i: int, j: int)
    requires i >= |xs| || 0 <= j <= i
    ensures PySlice(xs, i, j) == []
  {
  }

  /** The characters `str.isspace` accepts, which `str.strip` removes. */
  predicate IsPyWhitespace(c: char) {
    var n := c as int;
    || 0x09 <= n <= 0x0D || 0x1C <= n <= 0x20 || n == 0x85 || n == 0xA0
    || n == 0x1680 || 0x2000 <= n <= 0x200A || n == 0x2028 || n == 0x2029
    || n == 0x202F || n == 0x205F || n == 0x3000
  }

  /** The index of the first character at or after i that is not
      whitespace, or |s|. */
  function ContentStart(s: string, i: nat): (k: nat)
    requires i <= |s|
    ensures i <= k <= |s|
    decreases |s| - i
  {
    if i == |s| || !IsPyWhitespace(s[i]) then i else ContentStart(s, i + 1)
  }

  /** One past the last character before i that is not whitespace, or 0. */
  function ContentEnd(s: string, i: nat): (k: nat)
    requires i <= |s|
    ensures k <= i
  {
    if i == 0 || !IsPyWhitespace(s[i - 1]) then i else ContentEnd(s, i - 1)
  }

  /** ContentStart skips exactly the whitespace before the first other
      character. */
  lemma {:induction false} ContentStartIs(s: string, i: nat)
    requires i <= |s|
    ensures var k := ContentStart(s, i);
      && (forall j :: i <= j < k ==> IsPyWhitespace(s[j]))
      && (k < |s| ==> !IsPyWhitespace(s[k]))
    decreases |s| - i
  {
    if i < |s| && IsPyWhitespace(s[i]) {
      ContentStartIs(s, i + 1);
    }
  }

  /** ContentEnd skips exactly the whitespace after the last other
      character. */
  lemma {:induction false} ContentEndIs(s: string, i: nat)
    requires i <= |s|
    ensures var k := ContentEnd(s, i);
      && (forall j :: k <= j < i ==> IsPyWhitespace(s[j]))
      && (k > 0 ==> !IsPyWhitespace(s[k - 1]))
  {
    if i > 0 && IsPyWhitespace(s[i - 1]) {
      ContentEndIs(s, i - 1);
    }
  }

  /** `str.strip()`: the text between the leading and the trailing
      whitespace; empty when the text is all whitespace. */
  function Strip(s: string): string {
    var lo, hi := ContentStart(s, 0), ContentEnd(s, |s|);
    if lo < hi then s[lo..hi] else ""
  }

  /** The test `_find_end_line` applies to each line, read off the line's
      last character that is not whitespace. */
  predicate EndsDeclaration(line: string) {
    var hi := ContentEnd(line, |line|);
    hi > 0 && line[hi - 1] in {';', '}'}
  }

  /** The test above is `line.strip().endswith(";") or
      line.strip().endswith("}")`. */
  lemma EndsDeclarationIsStripTest(line: string)
    ensures EndsDeclaration(line) <==> EndsWith(Strip(line), ";") || EndsWith(Strip(line), "}")
  {
    StripLast(line);
  }

  /** Every character after index k is whitespace. */
  predicate TrailingSpaceAfter(line: string, k: int)
    requires 0 <= k < |line|
  {
    forall j :: k < j < |line| ==> IsPyWhitespace(line[j])
  }

  /** The line test stated without stripping: the last character that is not
      whitespace is ';' or '}'. */
  lemma EndsDeclarationIff(line: string)
    ensures EndsDeclaration(line) <==>
      exists k :: 0 <= k < |line| && line[k] in {';', '}'} && TrailingSpaceAfter(line, k)
  {
    var hi := ContentEnd(line, |line|);
    ContentEndIs(line, |line|);
    if EndsDeclaration(line) {
      assert line[hi - 1] in {';', '}'} && TrailingSpaceAfter(line, hi - 1);
    }
    if exists k :: 0 <= k < |line| && line[k] in {';', '}'} && TrailingSpaceAfter(line, k) {
      var k :| 0 <= k < |line| && line[k] in {';', '}'} && TrailingSpaceAfter(line, k);
      LastVisibleIs(line, k);
    }
  }

  /** The stripped line is empty exactly when the line is all whitespace,
      and otherwise ends with the line's last character that is not. */
  lemma StripLast(line: string)
    ensures var r, hi := Strip(line), ContentEnd(line, |line|);
      && (|r| > 0 <==> hi > 0)
      && (hi > 0 ==> r[|r| - 1] == line[hi - 1])
      && (EndsWith(r, ";") <==> hi > 0 && line[hi - 1] == ';')
      && (EndsWith(r, "}") <==> hi > 0 && line[hi - 1] == '}')
  {
    var lo, hi := ContentStart(line, 0), ContentEnd(line, |line|);
    ContentStartIs(line, 0);
    ContentEndIs(line, |line|);
    if hi > 0 {
      assert lo <= hi - 1;
      var r := Strip(line);
      assert r[|r| - 1..] == [r[|r| - 1]];
    }
  }

  /** A ';' or '}' followed only by whitespace is the line's last character
      that is not whitespace. */
  lemma LastVisibleIs(line: string, k: nat)
    requires k < |line| && line[k] in {';', '}'} && TrailingSpaceAfter(line, k)
    ensures ContentEnd(line, |line|) == k + 1
  {
    ContentEndIs(line, |line|);
    assert !IsPyWhitespace(line[k]);
  }

  /** No line with index in [from, to) ends a declaration. */
  predicate NoEndIn(lines: seq<string>, from: nat, to: nat) {
    forall k :: from <= k < to && k < |lines| ==> !EndsDeclaration(lines[k])
  }

  /** The first index at or after i whose line ends a declaration, or a
      value at or past the end when there is none. */
  function FirstEnd(lines: seq<string>, i: nat): (k: nat)
    ensures i <= k
    ensures k < |lines| ==> EndsDeclaration(lines[k])
    ensures NoEndIn(lines, i, k)
    decreases |lines| - i
  {
    if i >= |lines| || EndsDeclaration(lines[i]) then i else FirstEnd(lines, i + 1)
  }

  /** The value `_find_end_line` returns: one past the first index at or after
      `line` whose line ends a declaration, or `line` itself when there is
      none. The node's own first line (index line - 1) is never tested. */
  function EndLine(lines: seq<string>, line: nat): (r: nat)
    ensures line <= r && (r <= |lines| || r == line)
    ensures r == line ==> NoEndIn(lines, line, |lines|)
    ensures r > line ==> EndsDeclaration(lines[r - 1]) && NoEndIn(lines, line, r - 1)
  {
    var k := FirstEnd(lines, line);
    if k < |lines| then k + 1 else line
  }

  /** `_find_end_line`: scan forward from `line` and stop at the first line
      that ends a declaration. */
  method FindEndLine(content: string, line: nat) returns (endLine: nat)
    ensures endLine == EndLine(Lines(content), line)
  {
    var lines := Lines(content);
    NoEndLeadsTo(lines, line);
    endLine := line;
    var i := line;
    while i < |lines|
      invariant line <= i && (i <= |lines| || i == line)
      invariant endLine == line
      invariant NoEndIn(lines, line, i)
      decreases |lines| - i
    {
      if EndsDeclaration(lines[i]) {
        FirstEndLeadsTo(lines, line, i);
        endLine := i + 1;
        break;
      }
      NoEndExtend(lines, line, i);
      i := i + 1;
    }
  }

  lemma NoEndExtend(lines: seq<string>, from: nat, i: nat)
    requires NoEndIn(lines, from, i) && i < |lines| && !EndsDeclaration(lines[i])
    ensures NoEndIn(lines, from, i + 1)
  {
  }

  lemma NoEndLeadsTo(lines: seq<string>, line: nat)
    ensures NoEndIn(lines, line, |lines|) ==> EndLine(lines, line) == line
  {
  }

  lemma FirstEndLeadsTo(lines: seq<string>, line: nat, i: nat)
    requires line <= i < |lines| && EndsDeclaration(lines[i]) && NoEndIn(lines, line, i)
    ensures EndLine(lines, line) == i + 1
  {
  }
}
