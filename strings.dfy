/** The string operations the source takes from JavaScript: `toLowerCase`,
    `includes` and the search for the last occurrence of a character. */
module Strings {
  import opened Wrappers

  /** `toLowerCase` on one character, restricted to ASCII letters. */
  function LowerChar(c: char): char
  {
    if 'A' <= c <= 'Z' then (c as int + 32) as char else c
  }

  /** `s.toLowerCase()`, applied character by character. */
  function Lower(s: string): string
  {
    seq(|s|, i requires 0 <= i < |s| => LowerChar(s[i]))
  }

  /** The `n` characters of `hay` starting at `i`. */
  function Window(hay: string, i: int, n: nat): string
    requires 0 <= i && i + n <= |hay|
  {
    hay[i..i + n]
  }

  /** `hay.includes(needle)`. */
  predicate Contains(hay: string, needle: string)
  {
    exists i :: 0 <= i <= |hay| - |needle| && Window(hay, i, |needle|) == needle
  }

  /** The index of the last occurrence of `c` in `s`, if any. */
  function LastIndexOf(s: string, c: char): (r: Option<nat>)
    ensures r.None? <==> c !in s
    ensures r.Some? ==> r.value < |s| && s[r.value] == c && c !in s[r.value + 1..]
  {
    if |s| == 0 then None
    else if s[|s| - 1] == c then Some(|s| - 1)
    else
      var r := LastIndexOf(s[..|s| - 1], c);
      assert s == s[..|s| - 1] + [s[|s| - 1]];
      if r.Some? then
        assert s[r.value + 1..] == s[..|s| - 1][r.value + 1..] + [s[|s| - 1]];
        r
      else r
  }

  /** Lowering commutes with taking a window. */
  lemma LowerWindow(s: string, i: int, n: nat)
    requires 0 <= i && i + n <= |s|
    ensures Window(Lower(s), i, n) == Lower(Window(s, i, n))
  {
  }

  /** A string contains itself and the empty string. */
  lemma ContainsSelf(s: string)
    ensures Contains(s, s) && Contains(s, "")
  {
    assert Window(s, 0, |s|) == s;
    assert Window(s, 0, 0) == "";
  }

  /** Containment is transitive: a substring of a substring is a substring. */
  lemma ContainsTransitive(a: string, b: string, c: string)
    requires Contains(a, b) && Contains(b, c)
    ensures Contains(a, c)
  {
    var i :| 0 <= i <= |a| - |b| && Window(a, i, |b|) == b;
    var j :| 0 <= j <= |b| - |c| && Window(b, j, |c|) == c;
    assert Window(a, i + j, |c|) == Window(b, j, |c|) by {
      forall k | 0 <= k < |c|
        ensures Window(a, i + j, |c|)[k] == Window(b, j, |c|)[k]
      {
        assert Window(a, i + j, |c|)[k] == a[i + j + k];
        assert b[j + k] == Window(a, i, |b|)[j + k] == a[i + j + k];
      }
    }
  }

  /** Containment survives lowering both sides. */
  lemma ContainsLower(a: string, b: string)
    requires Contains(a, b)
    ensures Contains(Lower(a), Lower(b))
  {
    var i :| 0 <= i <= |a| - |b| && Window(a, i, |b|) == b;
    LowerWindow(a, i, |b|);
  }

  /** Lowering leaves a leading '.' in place. */
  lemma LowerDotPrefix(s: string)
    ensures Lower("." + s) == "." + Lower(s)
  {
    var a, b := Lower("." + s), "." + Lower(s);
    assert |a| == |b|;
    forall i | 0 <= i < |a| ensures a[i] == b[i] {
      if i > 0 { assert ("." + s)[i] == s[i - 1]; }
    }
  }

  /** Lowering brings in no character that is not a letter. */
  lemma LowerKeepsOut(s: string, c: char)
    requires c !in s && !('A' <= c <= 'Z') && !('a' <= c <= 'z')
    ensures c !in Lower(s)
  {
    forall i | 0 <= i < |s| ensures Lower(s)[i] != c {
      assert s[i] != c;
    }
  }

  /** Lowering is idempotent. */
  lemma LowerIdempotent(s: string)
    ensures Lower(Lower(s)) == Lower(s)
  {
  }
}
