/** String helpers shared by the model: prefix, suffix and infix tests,
    ASCII lowercasing, splitting on one separator character and joining. */
module TextOps {

  predicate StartsWith(s: string, p: string) {
    |p| <= |s| && s[..|p|] == p
  }

  predicate EndsWith(s: string, p: string) {
    |p| <= |s| && s[|s| - |p|..] == p
  }

  /** `p in s` for strings: p occurs somewhere in s as a contiguous block. */
  predicate Contains(s: string, p: string) {
    exists i :: 0 <= i <= |s| - |p| && OccursAt(s, p, i)
  }

  /** p occurs in s starting at index i. */
  predicate OccursAt(s: string, p: string, i: int) {
    0 <= i <= |s| - |p| && s[i..i + |p|] == p
  }

  /** str.lower() restricted to ASCII letters; other characters are kept. */
  function LowerChar(c: char): char {
    if 'A' <= c <= 'Z' then (c as int + 32) as char else c
  }

  function Lower(s: string): (r: string)
    ensures |r| == |s|
    ensures forall i :: 0 <= i < |s| ==> r[i] == LowerChar(s[i])
  {
    seq(|s|, i requires 0 <= i < |s| => LowerChar(s[i]))
  }

  /** Index of the first occurrence of c in s. */
  function FirstIndex(s: string, c: char): (k: nat)
    requires c in s
    ensures k < |s| && s[k] == c && c !in s[..k]
  {
    if s[0] == c then 0 else FirstIndex(s[1..], c) + 1
  }

  lemma FirstIndexAt(s: string, c: char, k: nat)
    requires k < |s| && s[k] == c && c !in s[..k]
    ensures FirstIndex(s, c) == k
  {
  }

  /** Index of the last occurrence of c in s, or -1 (str.rfind). */
  function LastIndex(s: string, c: char): (k: int)
    ensures -1 <= k < |s|
    ensures k >= 0 ==> s[k] == c
    ensures forall j :: k < j < |s| ==> s[j] != c
  {
    if |s| == 0 then -1
    else if s[|s| - 1] == c then |s| - 1
    else LastIndex(s[..|s| - 1], c)
  }

  /** s.split(sep) for a single-character separator: the pieces between
      separators, in order, always at least one. */
  function Split(s: string, sep: char): (parts: seq<string>)
    ensures |parts| >= 1
    ensures forall i :: 0 <= i < |parts| ==> sep !in parts[i]
    decreases |s|
  {
    if sep !in s then [s]
    else
      var k := FirstIndex(s, sep);
      [s[..k]] + Split(s[k + 1..], sep)
  }

  /** sep.join(parts). */
  function JoinWith(parts: seq<string>, sep: string): string
  {
    if |parts| == 0 then ""
    else if |parts| == 1 then parts[0]
    else parts[0] + sep + JoinWith(parts[1..], sep)
  }

  lemma SplitTwo(a: string, b: string, sep: char)
    requires sep !in a && sep !in b
    ensures Split(a + [sep] + b, sep) == [a, b]
  {
    var s := a + [sep] + b;
    assert s[|a|] == sep && s[..|a|] == a;
    FirstIndexAt(s, sep, |a|);
    assert s[|a| + 1..] == b;
  }

  lemma StartsWithKeepsChar(s: string, p: string, c: char)
    requires c in p && c !in s
    ensures !StartsWith(s, p)
  {
  }

  /** "".join(parts). */
  function Concat(parts: seq<string>): string
  {
    if |parts| == 0 then "" else parts[0] + Concat(parts[1..])
  }

  lemma {:induction false} ConcatAppend(a: seq<string>, b: seq<string>)
    ensures Concat(a + b) == Concat(a) + Concat(b)
  {
    if a == [] {
      assert a + b == b;
    } else {
      assert (a + b)[1..] == a[1..] + b;
      ConcatAppend(a[1..], b);
    }
  }

  lemma {:induction false} JoinWithAppend(a: seq<string>, b: seq<string>, sep: string)
    requires |a| > 0 && |b| > 0
    ensures JoinWith(a + b, sep) == JoinWith(a, sep) + sep + JoinWith(b, sep)
  {
    if |a| == 1 {
      assert (a + b)[1..] == b;
    } else {
      assert (a + b)[1..] == a[1..] + b;
      JoinWithAppend(a[1..], b, sep);
    }
  }

  /** Joining the pieces of a split with the separator gives the string back. */
  lemma {:induction false} JoinSplit(s: string, sep: char)
    ensures JoinWith(Split(s, sep), [sep]) == s
    decreases |s|
  {
    if sep in s {
      var k := FirstIndex(s, sep);
      var parts, rest := Split(s, sep), Split(s[k + 1..], sep);
      assert parts == [s[..k]] + rest;
      assert parts[1..] == rest;
      assert JoinWith(parts, [sep]) == s[..k] + [sep] + JoinWith(rest, [sep]);
      JoinSplit(s[k + 1..], sep);
      assert s == s[..k] + [sep] + s[k + 1..];
    }
  }

  /** An occurrence of a block that starts with the separator cannot start
      inside the first piece: it starts at the first separator or after it. */
  lemma ContainsAfterFirstSep(s: string, sep: char, q: string)
    requires sep in s
    ensures var k := FirstIndex(s, sep);
      Contains(s, [sep] + q) <==> StartsWith(s[k + 1..], q) || Contains(s[k + 1..], [sep] + q)
  {
    var k := FirstIndex(s, sep);
    var p := [sep] + q;
    if Contains(s, p) {
      var i :| 0 <= i <= |s| - |p| && OccursAt(s, p, i);
      OccurrenceAfterFirstSep(s, sep, q, i);
    }
    if StartsWith(s[k + 1..], q) {
      OccurrenceAtFirstSep(s, sep, q);
    }
    if Contains(s[k + 1..], p) {
      var j :| 0 <= j <= |s[k + 1..]| - |p| && OccursAt(s[k + 1..], p, j);
      OccurrenceShift(s, k + 1, p, j);
    }
  }

  lemma OccurrenceAfterFirstSep(s: string, sep: char, q: string, i: int)
    requires sep in s && OccursAt(s, [sep] + q, i)
    ensures var k := FirstIndex(s, sep);
      StartsWith(s[k + 1..], q) || Contains(s[k + 1..], [sep] + q)
  {
    var k := FirstIndex(s, sep);
    var p := [sep] + q;
    assert s[i] == p[0];
    assert i >= k;
    var t := s[k + 1..];
    if i == k {
      assert t[..|q|] == s[i..i + |p|][1..];
    } else {
      assert t[i - k - 1..i - k - 1 + |p|] == s[i..i + |p|];
      assert OccursAt(t, p, i - k - 1);
    }
  }

  lemma OccurrenceAtFirstSep(s: string, sep: char, q: string)
    requires sep in s && StartsWith(s[FirstIndex(s, sep) + 1..], q)
    ensures Contains(s, [sep] + q)
  {
    var k := FirstIndex(s, sep);
    var p := [sep] + q;
    assert s[k..k + |p|] == [s[k]] + s[k + 1..][..|q|];
    assert OccursAt(s, p, k);
  }

  lemma OccurrenceShift(s: string, d: nat, p: string, j: int)
    requires d <= |s| && OccursAt(s[d..], p, j)
    ensures Contains(s, p)
  {
    assert s[j + d..j + d + |p|] == s[d..][j..j + |p|];
    assert OccursAt(s, p, j + d);
  }
}
