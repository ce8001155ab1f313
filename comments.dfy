// `_remove_comments`: one regular-expression substitution that deletes every
// match of seven alternatives, tried in the order written at each position,
// scanning left to right (the behaviour of `re.sub` with an alternation):
//
//   1. `//` up to the end of the line
//   2. `/*` up to the first following `*/`
//   3. `#` up to the end of the line
//   4. `'''` up to the first following `'''`
//   5. `"""` up to the first following `"""`
//   6. `{/*` up to the first following `*/}`
//   7. `{//` up to the first following `}` on the same line
//
// An opener without its closer does not match at that position; the
// scanner then copies the character and moves on.
module Comments {
  import opened TextOps

  /** The first index at or after `from` where p occurs, or -1. */
  function FindFrom(s: string, p: string, from: nat): (r: int)
    requires from <= |s|
    ensures r == -1 || (from <= r && OccursAt(s, p, r))
    ensures forall j :: from <= j < (if r == -1 then |s| + 1 else r) ==> !OccursAt(s, p, j)
    decreases |s| - from
  {
    if OccursAt(s, p, from) then from
    else if from == |s| then -1
    else FindFrom(s, p, from + 1)
  }

  /** The first index at or after `from` holding one of `stops`, or |s|. */
  function StopAt(s: string, from: nat, stops: set<char>): (r: nat)
    requires from <= |s|
    ensures from <= r <= |s|
    ensures r < |s| ==> s[r] in stops
    ensures forall j :: from <= j < r ==> s[j] !in stops
    decreases |s| - from
  {
    if from == |s| || s[from] in stops then from
    else StopAt(s, from + 1, stops)
  }

  /** Length of the text an opener at index 0 and its closer span, counting
      the closer, or 0 when the closer never comes. */
  function Closed(s: string, opener: nat, closer: string): (r: nat)
    requires opener <= |s|
    ensures r == 0 || opener + |closer| <= r <= |s|
  {
    var j := FindFrom(s, closer, opener);
    if j < 0 then 0 else j + |closer|
  }

  /** Length of the comment the combined pattern matches at the start of s,
      or 0 when none of the alternatives matches there. */
  function MatchLen(s: string): (r: nat)
    ensures r <= |s|
    ensures r > 0 ==> s[0] in {'/', '#', '\'', '"', '{'}
  {
    if StartsWith(s, "//") then StopAt(s, 2, {'\n'})
    else if StartsWith(s, "/*") && Closed(s, 2, "*/") > 0 then Closed(s, 2, "*/")
    else if StartsWith(s, "#") then StopAt(s, 1, {'\n'})
    else if StartsWith(s, "'''") && Closed(s, 3, "'''") > 0 then Closed(s, 3, "'''")
    else if StartsWith(s, "\"\"\"") && Closed(s, 3, "\"\"\"") > 0 then Closed(s, 3, "\"\"\"")
    else if StartsWith(s, "{/*") && Closed(s, 3, "*/}") > 0 then Closed(s, 3, "*/}")
    else if StartsWith(s, "{//") && StopAt(s, 3, {'}', '\n'}) < |s| && s[StopAt(s, 3, {'}', '\n'})] == '}' then
      StopAt(s, 3, {'}', '\n'}) + 1
    else 0
  }

  /** The substitution: delete each match, copy every other character. */
  function RemoveComments(s: string): (r: string)
    ensures |r| <= |s|
    decreases |s|
  {
    if |s| == 0 then ""
    else
      var m := MatchLen(s);
      if m > 0 then RemoveComments(s[m..]) else [s[0]] + RemoveComments(s[1..])
  }

  // ---------------------------------------------------------------------
  // Properties

  /** Only text that holds an opener's first character can match at all. */
  lemma {:induction false} NoOpenerUnchanged(s: string)
    requires '/' !in s && '#' !in s
    requires !Contains(s, "'''") && !Contains(s, "\"\"\"")
    ensures RemoveComments(s) == s
    decreases |s|
  {
    if |s| > 0 {
      assert !OccursAt(s, "'''", 0) && !OccursAt(s, "\"\"\"", 0);
      assert MatchLen(s) == 0 by {
        if |s| >= 2 {
          assert s[1] != '/';
        }
      }
      NotContainsSuffix(s, "'''");
      NotContainsSuffix(s, "\"\"\"");
      NoOpenerUnchanged(s[1..]);
      assert s == [s[0]] + s[1..];
    }
  }

  lemma NotContainsSuffix(s: string, p: string)
    requires |s| > 0 && !Contains(s, p)
    ensures !Contains(s[1..], p)
  {
    if Contains(s[1..], p) {
      var j :| 0 <= j <= |s[1..]| - |p| && OccursAt(s[1..], p, j);
      OccurrenceShift(s, 1, p, j);
    }
  }

  /** A `//` comment is deleted up to, but not including, the newline that
      ends it. */
  lemma LineCommentRemoved(c: string, rest: string)
    requires '\n' !in c
    ensures RemoveComments("//" + c + "\n" + rest) == "\n" + RemoveComments(rest)
  {
    var s := "//" + c + "\n" + rest;
    assert StartsWith(s, "//");
    forall j | 2 <= j < 2 + |c| ensures s[j] !in {'\n'} {
      assert s[j] == c[j - 2];
    }
    assert s[2 + |c|] == '\n';
    assert MatchLen(s) == 2 + |c|;
    var t := s[2 + |c|..];
    assert t == "\n" + rest;
    assert MatchLen(t) == 0;
    assert t[1..] == rest;
  }

  /** A `//` comment that runs to the end of the text is deleted with
      nothing left behind. */
  lemma LineCommentAtEnd(c: string)
    requires '\n' !in c
    ensures RemoveComments("//" + c) == ""
  {
    var s := "//" + c;
    assert StartsWith(s, "//");
    forall j | 2 <= j < |s| ensures s[j] !in {'\n'} {
      assert s[j] == c[j - 2];
    }
    assert MatchLen(s) == |s|;
    assert s[|s|..] == "";
  }

  /** A `#` comment is deleted up to, but not including, the newline that
      ends it, in any kind of file. */
  lemma HashCommentRemoved(c: string, rest: string)
    requires '\n' !in c
    ensures RemoveComments("#" + c + "\n" + rest) == "\n" + RemoveComments(rest)
  {
    var s := "#" + c + "\n" + rest;
    assert s[0] == '#';
    assert StartsWith(s, "#") && !StartsWith(s, "//") && !StartsWith(s, "/*") by {
      assert s[..1] == "#";
      assert |s| >= 2 ==> s[..2][0] == '#';
    }
    forall j | 1 <= j < 1 + |c| ensures s[j] !in {'\n'} {
      assert s[j] == c[j - 1];
    }
    assert s[1 + |c|] == '\n';
    assert MatchLen(s) == 1 + |c|;
    var t := s[1 + |c|..];
    assert t == "\n" + rest;
    assert MatchLen(t) == 0;
    assert t[1..] == rest;
  }

  // A block comment whose body holds no `*/` is deleted entirely.
  lemma BlockCommentRemoved(c: string, rest: string)
    requires !Contains(c, "*/")
    ensures RemoveComments("/*" + c + "*/" + rest) == RemoveComments(rest)
  {
    var s := "/*" + c + "*/" + rest;
    var e := 2 + |c|;
    assert s[e..e + 2] == "*/";
    assert OccursAt(s, "*/", e);
    assert s[2..e] == c;
    forall j | 2 <= j < e ensures !OccursAt(s, "*/", j) {
      if j == e - 1 {
        assert s[j + 1] == '*';
      } else {
        CloserAbsentInside(s, c, 2, j);
      }
    }
    assert FindFrom(s, "*/", 2) == e;
    assert StartsWith(s, "/*");
    assert !StartsWith(s, "//");
    assert MatchLen(s) == e + 2;
    assert s[e + 2..] == rest;
  }

  // A `/*` that is never closed is not a comment: its '/' is kept and the
  // scan goes on from the '*'.
  lemma UnclosedBlockKept(c: string)
    requires !Contains(c, "*/")
    ensures RemoveComments("/*" + c) == "/" + RemoveComments("*" + c)
  {
    var s := "/*" + c;
    assert s[2..] == c;
    forall j | 2 <= j <= |s| ensures !OccursAt(s, "*/", j) {
      if j + 2 <= |s| {
        CloserAbsentInside(s, c, 2, j);
      }
    }
    assert Closed(s, 2, "*/") == 0;
    assert s[1] == '*';
    assert MatchLen(s) == 0;
    assert s[1..] == "*" + c;
  }

  // Where s holds c from `off` on, a block closer that starts and ends
  // inside that stretch would be one in c.
  lemma CloserAbsentInside(s: string, c: string, off: nat, j: nat)
    requires off + |c| <= |s| && s[off..off + |c|] == c && !Contains(c, "*/")
    requires off <= j && j + 2 <= off + |c|
    ensures !OccursAt(s, "*/", j)
  {
    var i := j - off;
    assert c[i] == s[j] && c[i + 1] == s[j + 1];
    assert s[j..j + 2] == c[i..i + 2];
    assert |"*/"| == 2 && 0 <= i <= |c| - 2;
    assert !OccursAt(c, "*/", i);
  }
}
