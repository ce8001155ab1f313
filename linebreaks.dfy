/** `_remove_excessive_line_breaks`: every run of three or more newlines is
    replaced by exactly two (the substitution of `\n{3,}` by "\n\n"). Runs of
    one or two newlines are left alone. */
module LineBreaks {
  import opened TextOps

  function Newlines(n: nat): (r: string)
    ensures |r| == n && forall i :: 0 <= i < n ==> r[i] == '\n'
  {
    seq(n, i => '\n')
  }

  /** Length of the run of newlines at the start of s. */
  function NewlineRun(s: string): (k: nat)
    ensures k <= |s|
    ensures forall i :: 0 <= i < k ==> s[i] == '\n'
    ensures k < |s| ==> s[k] != '\n'
  {
    if |s| == 0 || s[0] != '\n' then 0 else 1 + NewlineRun(s[1..])
  }

  function Min(a: nat, b: nat): nat {
    if a <= b then a else b
  }

  /** The substitution, scanning left to right: a maximal run of k newlines
      becomes min(k, 2) newlines, every other character is copied. */
  function Collapse(s: string): (r: string)
    ensures |r| <= |s|
    decreases |s|
  {
    if |s| == 0 then ""
    else if s[0] != '\n' then [s[0]] + Collapse(s[1..])
    else
      var k := NewlineRun(s);
      Newlines(Min(k, 2)) + Collapse(s[k..])
  }

  /** No three consecutive newlines anywhere in s. */
  predicate NoTriple(s: string) {
    forall i :: 0 <= i < |s| - 2 ==> !TripleAt(s, i)
  }

  predicate TripleAt(s: string, i: int)
    requires 0 <= i < |s| - 2
  {
    s[i] == '\n' && s[i + 1] == '\n' && s[i + 2] == '\n'
  }

  /** s with every newline deleted. */
  function RemoveNewlines(s: string): (r: string)
    ensures '\n' !in r
  {
    if |s| == 0 then ""
    else (if s[0] == '\n' then "" else [s[0]]) + RemoveNewlines(s[1..])
  }

  // ---------------------------------------------------------------------
  // Properties

  /** NoTriple is the source's own test: "\n\n\n" does not occur. */
  lemma NoTripleIff(s: string)
    ensures NoTriple(s) <==> !Contains(s, "\n\n\n")
  {
    if !NoTriple(s) {
      var i :| 0 <= i < |s| - 2 && TripleAt(s, i);
      assert s[i..i + 3] == "\n\n\n";
      assert OccursAt(s, "\n\n\n", i);
    }
    if Contains(s, "\n\n\n") {
      var i :| 0 <= i <= |s| - 3 && OccursAt(s, "\n\n\n", i);
      assert s[i] == s[i..i + 3][0] && s[i + 1] == s[i..i + 3][1] && s[i + 2] == s[i..i + 3][2];
      assert TripleAt(s, i);
    }
  }

  /** The output starts with a newline exactly when the input does, and its
      leading run is the input's, capped at two. */
  lemma {:induction false} CollapseLead(s: string)
    ensures NewlineRun(Collapse(s)) == Min(NewlineRun(s), 2)
    decreases |s|
  {
    if |s| > 0 && s[0] == '\n' {
      var k := NewlineRun(s);
      var m := Min(k, 2);
      var rest := s[k..];
      CollapseLead(rest);
      var r := Newlines(m) + Collapse(rest);
      assert Collapse(s) == r;
      assert NewlineRun(rest) == 0;
      RunOfPrefix(Newlines(m), Collapse(rest));
    }
  }

  /** A run of n newlines followed by text that does not start with one has a
      leading run of exactly n. */
  lemma {:induction false} RunOfPrefix(p: string, c: string)
    requires forall i :: 0 <= i < |p| ==> p[i] == '\n'
    requires NewlineRun(c) == 0
    ensures NewlineRun(p + c) == |p|
    decreases |p|
  {
    if |p| > 0 {
      assert (p + c)[1..] == p[1..] + c;
      RunOfPrefix(p[1..], c);
    }
  }

  lemma NoTripleAfterChar(x: char, c: string)
    requires x != '\n' && NoTriple(c)
    ensures NoTriple([x] + c)
  {
    var t := [x] + c;
    forall i | 0 <= i < |t| - 2 ensures !TripleAt(t, i) {
      if i > 0 {
        assert !TripleAt(c, i - 1);
      }
    }
  }

  lemma NoTripleAfterNewlines(m: nat, c: string)
    requires m <= 2 && NoTriple(c) && NewlineRun(c) == 0
    ensures NoTriple(Newlines(m) + c)
  {
    var t := Newlines(m) + c;
    forall i | 0 <= i < |t| - 2 ensures !TripleAt(t, i) {
      if i >= m {
        assert !TripleAt(c, i - m);
      } else {
        assert t[m] == c[0];
      }
    }
  }

  /** The output never holds three consecutive newlines. */
  lemma {:induction false} CollapseNoTriple(s: string)
    ensures NoTriple(Collapse(s))
    decreases |s|
  {
    if |s| > 0 {
      if s[0] != '\n' {
        CollapseNoTriple(s[1..]);
        NoTripleAfterChar(s[0], Collapse(s[1..]));
      } else {
        var k := NewlineRun(s);
        CollapseNoTriple(s[k..]);
        CollapseLead(s[k..]);
        NoTripleAfterNewlines(Min(k, 2), Collapse(s[k..]));
      }
    }
  }

  lemma NoTripleSuffix(s: string, k: nat)
    requires k <= |s| && NoTriple(s)
    ensures NoTriple(s[k..])
  {
    forall i | 0 <= i < |s[k..]| - 2 ensures !TripleAt(s[k..], i) {
      assert !TripleAt(s, i + k);
    }
  }

  /** Text without three consecutive newlines is returned unchanged. */
  lemma {:induction false} CollapseKeepsClean(s: string)
    requires NoTriple(s)
    ensures Collapse(s) == s
    decreases |s|
  {
    if |s| > 0 {
      if s[0] != '\n' {
        NoTripleSuffix(s, 1);
        CollapseKeepsClean(s[1..]);
        assert s == [s[0]] + s[1..];
      } else {
        var k := NewlineRun(s);
        if k >= 3 {
          assert TripleAt(s, 0);
        }
        NoTripleSuffix(s, k);
        CollapseKeepsClean(s[k..]);
        assert s[..k] == Newlines(k);
        assert s == s[..k] + s[k..];
      }
    }
  }

  /** The substitution changes its input exactly when the input holds
      "\n\n\n". */
  lemma CollapseFixedIff(s: string)
    ensures Collapse(s) == s <==> !Contains(s, "\n\n\n")
  {
    NoTripleIff(s);
    CollapseNoTriple(s);
    if NoTriple(s) {
      CollapseKeepsClean(s);
    }
  }

  /** Applying the substitution twice is the same as applying it once. */
  lemma CollapseIdempotent(s: string)
    ensures Collapse(Collapse(s)) == Collapse(s)
  {
    CollapseNoTriple(s);
    CollapseKeepsClean(Collapse(s));
  }

  lemma {:induction false} RemoveNewlinesAppend(a: string, b: string)
    ensures RemoveNewlines(a + b) == RemoveNewlines(a) + RemoveNewlines(b)
    decreases |a|
  {
    if |a| == 0 {
      assert a + b == b;
    } else {
      assert (a + b)[1..] == a[1..] + b;
      RemoveNewlinesAppend(a[1..], b);
    }
  }

  lemma {:induction false} RemoveAllNewlines(p: string)
    requires forall i :: 0 <= i < |p| ==> p[i] == '\n'
    ensures RemoveNewlines(p) == ""
    decreases |p|
  {
    if |p| > 0 {
      RemoveAllNewlines(p[1..]);
    }
  }

  /** Only newlines are removed: deleting every newline from the input and
      from the output gives the same text. */
  lemma {:induction false} CollapseKeepsText(s: string)
    ensures RemoveNewlines(Collapse(s)) == RemoveNewlines(s)
    decreases |s|
  {
    if |s| > 0 {
      if s[0] != '\n' {
        CollapseKeepsText(s[1..]);
        RemoveNewlinesAppend([s[0]], Collapse(s[1..]));
      } else {
        var k := NewlineRun(s);
        CollapseKeepsText(s[k..]);
        RemoveNewlinesAppend(Newlines(Min(k, 2)), Collapse(s[k..]));
        RemoveAllNewlines(Newlines(Min(k, 2)));
        assert s == s[..k] + s[k..];
        RemoveNewlinesAppend(s[..k], s[k..]);
        RemoveAllNewlines(s[..k]);
      }
    }
  }
}
