/** The JavaScript string operations the measurement engine relies on:
    `String.prototype.includes`, `split(sep).pop()` and `toLowerCase`. */
module JsText {

  /** `p` occurs in `s` starting at offset `i`. */
  predicate OccursAt(s: string, p: string, i: nat) {
    i + |p| <= |s| && s[i..i + |p|] == p
  }

  /** `s.includes(p)` searched from offset `i` onwards. */
  predicate IncludesFrom(s: string, p: string, i: nat)
    decreases |s| - i
  {
    i + |p| <= |s| && (s[i..i + |p|] == p || IncludesFrom(s, p, i + 1))
  }

  /** `s.includes(p)`: a substring test (the empty pattern is in every string). */
  predicate Includes(s: string, p: string) {
    IncludesFrom(s, p, 0)
  }

  lemma {:induction false} IncludesFromIff(s: string, p: string, i: nat)
    ensures IncludesFrom(s, p, i) <==> exists j: nat :: i <= j && OccursAt(s, p, j)
    decreases |s| - i
  {
    if i + |p| <= |s| {
      IncludesFromIff(s, p, i + 1);
      if s[i..i + |p|] == p {
        assert OccursAt(s, p, i);
      }
      if exists j: nat :: i <= j && OccursAt(s, p, j) {
        var j: nat :| i <= j && OccursAt(s, p, j);
        if j != i {
          assert i + 1 <= j;
        }
      }
    }
  }

  /** `includes` holds exactly when the pattern occurs at some offset. */
  lemma IncludesIff(s: string, p: string)
    ensures Includes(s, p) <==> exists j: nat :: OccursAt(s, p, j)
  {
    IncludesFromIff(s, p, 0);
  }

  lemma OccursIncludes(s: string, p: string, j: nat)
    requires OccursAt(s, p, j)
    ensures Includes(s, p)
  {
    IncludesIff(s, p);
  }

  /** A string includes each of its suffixes. */
  lemma IncludesSuffix(a: string, b: string)
    ensures Includes(a + b, b)
  {
    assert (a + b)[|a|..|a| + |b|] == b;
    OccursIncludes(a + b, b, |a|);
  }

  /** A string includes each of its prefixes. */
  lemma IncludesPrefix(a: string, b: string)
    ensures Includes(a + b, a)
  {
    assert (a + b)[0..|a|] == a;
    OccursIncludes(a + b, a, 0);
  }

  /** A string that includes `t` includes everything `t` includes. */
  lemma IncludesTransitive(s: string, t: string, u: string)
    requires Includes(s, t) && Includes(t, u)
    ensures Includes(s, u)
  {
    IncludesIff(s, t);
    IncludesIff(t, u);
    var i: nat :| OccursAt(s, t, i);
    var j: nat :| OccursAt(t, u, j);
    forall k | 0 <= k < |u| ensures s[i + j..i + j + |u|][k] == u[k] {
      assert u[k] == t[j..j + |u|][k] == t[j + k];
      assert t[j + k] == s[i..i + |t|][j + k] == s[i + j + k];
    }
    assert OccursAt(s, u, i + j);
    OccursIncludes(s, u, i + j);
  }

  /** The part of `s` after the last `sep`, i.e. `s.split(sep).pop()`:
      the whole string when `sep` does not occur, the empty string when
      `s` ends with `sep`. */
  function LastSegment(s: string, sep: char): (r: string)
    ensures |r| <= |s| && r == s[|s| - |r|..]
    ensures forall k :: 0 <= k < |r| ==> r[k] != sep
    ensures |r| < |s| ==> s[|s| - |r| - 1] == sep
  {
    if |s| == 0 then ""
    else if s[|s| - 1] == sep then ""
    else LastSegment(s[..|s| - 1], sep) + [s[|s| - 1]]
  }

  /** The last segment of a string that ends in `sep` followed by a
      separator-free tail is that tail. */
  lemma {:induction false} LastSegmentOfTail(prefix: string, sep: char, tail: string)
    requires forall k :: 0 <= k < |tail| ==> tail[k] != sep
    ensures LastSegment(prefix + [sep] + tail, sep) == tail
  {
    var s := prefix + [sep] + tail;
    if |tail| > 0 {
      var t := tail[..|tail| - 1];
      LastSegmentOfTail(prefix, sep, t);
      assert s[..|s| - 1] == prefix + [sep] + t;
      assert t + [tail[|tail| - 1]] == tail;
    }
  }

  /** `toLowerCase` restricted to the ASCII letters A-Z. */
  function ToLowerAscii(s: string): (r: string)
    ensures |r| == |s|
    ensures forall k :: 0 <= k < |r| ==> !('A' <= r[k] <= 'Z')
    ensures forall k :: 0 <= k < |s| && !('A' <= s[k] <= 'Z') ==> r[k] == s[k]
    ensures forall k :: 0 <= k < |s| && 'A' <= s[k] <= 'Z' ==> r[k] != s[k] && (r[k] as int) - (s[k] as int) == 'a' as int - 'A' as int
  {
    seq(|s|, k requires 0 <= k < |s| =>
      if 'A' <= s[k] <= 'Z' then (s[k] as int + 32) as char else s[k])
  }

  /** Lower-casing leaves a string without upper-case ASCII letters as it is. */
  lemma ToLowerAsciiIdentity(s: string)
    requires forall k :: 0 <= k < |s| ==> !('A' <= s[k] <= 'Z')
    ensures ToLowerAscii(s) == s
  {
  }
}
