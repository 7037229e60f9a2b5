/**
 * The .NET string operations the bakery service relies on, over `string`
 * (`seq<char>`): `char.IsWhiteSpace`, `string.IsNullOrWhiteSpace` and the
 * ordinal `string.Replace(string, string)`.
 */
module Text {
  import opened Wrappers

  /** The characters .NET's `char.IsWhiteSpace` accepts (Unicode White_Space). */
  predicate IsWhiteSpace(c: char) {
    || ('\U{9}' <= c <= '\U{D}')
    || c == ' ' || c == '\U{85}' || c == '\U{A0}' || c == '\U{1680}'
    || ('\U{2000}' <= c <= '\U{200A}')
    || c == '\U{2028}' || c == '\U{2029}' || c == '\U{202F}' || c == '\U{205F}' || c == '\U{3000}'
  }

  /** Every character of `s` is white space (vacuously so for ""). */
  predicate Blank(s: string) {
    forall k | 0 <= k < |s| :: IsWhiteSpace(s[k])
  }

  /** `string.IsNullOrWhiteSpace`, with `None` standing for `null`. */
  predicate IsNullOrWhiteSpace(s: Option<string>) {
    s.None? || Blank(s.value)
  }

  predicate StartsWith(s: string, p: string) {
    |p| <= |s| && s[..|p|] == p
  }

  /** `p` occurs somewhere in `s` (ordinal comparison). */
  predicate Contains(s: string, p: string)
    decreases |s|
  {
    StartsWith(s, p) || (|s| > 0 && Contains(s[1..], p))
  }

  /** No character of `a` occurs in `b` (a symmetric relation). */
  predicate Disjoint(a: string, b: string) {
    forall i, j | 0 <= i < |a| && 0 <= j < |b| :: a[i] != b[j]
  }

  /**
   * Ordinal `s.Replace(oldValue, newValue)`: scans `s` from left to right and
   * replaces every occurrence of `oldValue` that does not overlap an earlier
   * replaced one; all other characters are copied in order. .NET throws on an
   * empty `oldValue`, so it is required to be non-empty.
   */
  function Replace(s: string, oldValue: string, newValue: string): (r: string)
    requires oldValue != []
    ensures !Contains(s, oldValue) ==> r == s
    decreases |s|
  {
    if StartsWith(s, oldValue) then newValue + Replace(s[|oldValue|..], oldValue, newValue)
    else if s == [] then []
    else [s[0]] + Replace(s[1..], oldValue, newValue)
  }

  /** An occurrence in a suffix is an occurrence in the whole. */
  lemma {:induction false} ContainsSuffix(s: string, k: nat, p: string)
    requires k <= |s| && Contains(s[k..], p)
    ensures Contains(s, p)
    decreases k
  {
    if k > 0 {
      assert s[1..][k - 1..] == s[k..];
      ContainsSuffix(s[1..], k - 1, p);
    }
  }

  /** A string no longer than `p` contains it only by being it. */
  lemma ContainsShort(s: string, p: string)
    requires p != [] && |s| <= |p|
    ensures Contains(s, p) <==> s == p
  {
    if |s| > 0 {
      assert !Contains(s[1..], p);
    }
  }

  /** A string sharing no character with a non-empty `p` does not contain it. */
  lemma {:induction false} DisjointNotContains(s: string, p: string)
    requires p != [] && Disjoint(p, s)
    ensures !Contains(s, p)
    decreases |s|
  {
    assert |p| <= |s| ==> s[..|p|][0] != p[0];
    if |s| > 0 {
      assert Disjoint(p, s[1..]) by {
        forall i, j | 0 <= i < |p| && 0 <= j < |s[1..]| ensures p[i] != s[1..][j] {
          assert s[1..][j] == s[j + 1];
        }
      }
      DisjointNotContains(s[1..], p);
    }
  }

  /** Text built only from characters foreign to `p` cannot start an occurrence of it. */
  lemma {:induction false} ContainsPastForeign(r: string, t: string, p: string)
    requires p != [] && Disjoint(r, p)
    ensures Contains(r + t, p) <==> Contains(t, p)
    decreases |r|
  {
    if r == [] {
      assert r + t == t;
    } else {
      assert |p| <= |r + t| ==> (r + t)[..|p|][0] != p[0];
      assert (r + t)[1..] == r[1..] + t;
      ContainsPastForeign(r[1..], t, p);
    }
  }

  /**
   * A prefix of the replaced text made of characters foreign to the
   * (non-empty) replacement was already a prefix of the original text.
   */
  lemma {:induction false} ReplacePrefix(t: string, oldValue: string, newValue: string, w: string)
    requires oldValue != [] && newValue != []
    requires Disjoint(w, newValue) && StartsWith(Replace(t, oldValue, newValue), w)
    ensures StartsWith(t, w)
    decreases |t|
  {
    if w != [] {
      var r := Replace(t, oldValue, newValue);
      assert w[0] == r[0] != newValue[0];
      assert !StartsWith(t, oldValue);
      assert t != [];
      var rest := Replace(t[1..], oldValue, newValue);
      assert r == [t[0]] + rest;
      assert StartsWith(rest, w[1..]) by { assert rest[..|w| - 1] == r[..|w|][1..]; }
      assert Disjoint(w[1..], newValue) by {
        forall i, j | 0 <= i < |w[1..]| && 0 <= j < |newValue| ensures w[1..][i] != newValue[j] {
          assert w[1..][i] == w[i + 1];
        }
      }
      ReplacePrefix(t[1..], oldValue, newValue, w[1..]);
      assert t[..|w|] == [t[0]] + t[1..][..|w| - 1];
    }
  }

  /**
   * After replacing `p` by a text foreign to `q`, the result contains `q` only
   * if the source did, or `q` is the very token that was replaced.
   */
  lemma {:induction false} ReplaceAvoids(s: string, p: string, newValue: string, q: string)
    requires p != [] && q != [] && newValue != [] && Disjoint(newValue, q)
    requires q == p || !Contains(s, q)
    ensures !Contains(Replace(s, p, newValue), q)
    decreases |s|
  {
    var r := Replace(s, p, newValue);
    if StartsWith(s, p) {
      var tail := s[|p|..];
      ContainsPastForeign(newValue, Replace(tail, p, newValue), q);
      if q != p && Contains(tail, q) {
        ContainsSuffix(s, |p|, q);
      }
      ReplaceAvoids(tail, p, newValue, q);
    } else if s != [] {
      var rest := Replace(s[1..], p, newValue);
      assert r == [s[0]] + rest && r[1..] == rest;
      ReplaceAvoids(s[1..], p, newValue, q);
      if StartsWith(r, q) {
        ReplacePrefix(s, p, newValue, q);
      }
    }
  }

  /**
   * A character that is not part of `p` is copied through unchanged and in
   * place: no occurrence of `p` straddles it.
   */
  lemma {:induction false} ReplaceSplit(a: string, c: char, b: string, p: string, newValue: string)
    requires p != [] && c !in p
    ensures Replace(a + [c] + b, p, newValue)
         == Replace(a, p, newValue) + [c] + Replace(b, p, newValue)
    decreases |a|
  {
    var s := a + [c] + b;
    StartsWithAcross(a, c, b, p);
    if a == [] {
      assert s == [c] + b && s[1..] == b;
    } else if StartsWith(a, p) {
      var a' := a[|p|..];
      assert s[|p|..] == a' + [c] + b;
      ReplaceSplit(a', c, b, p, newValue);
      assert Replace(s, p, newValue) == newValue + (Replace(a', p, newValue) + [c] + Replace(b, p, newValue));
    } else {
      var a' := a[1..];
      assert s[0] == a[0] && s[1..] == a' + [c] + b;
      ReplaceSplit(a', c, b, p, newValue);
      assert Replace(s, p, newValue) == [a[0]] + (Replace(a', p, newValue) + [c] + Replace(b, p, newValue));
    }
  }

  /** No occurrence of `p` starts in `a` and runs over a character `c` foreign to `p`. */
  lemma StartsWithAcross(a: string, c: char, b: string, p: string)
    requires p != [] && c !in p
    ensures StartsWith(a + [c] + b, p) <==> StartsWith(a, p)
  {
    var s := a + [c] + b;
    if |p| <= |a| {
      assert s[..|p|] == a[..|p|];
    } else if |p| <= |s| {
      assert s[..|p|][|a|] == c;
      assert p[|a|] in p;
    }
  }

  /** Replacing by non-blank text never turns a non-blank string blank. */
  lemma {:induction false} ReplaceKeepsNonBlank(s: string, p: string, newValue: string)
    requires p != [] && !Blank(newValue) && !Blank(s)
    ensures !Blank(Replace(s, p, newValue))
    decreases |s|
  {
    var r := Replace(s, p, newValue);
    if StartsWith(s, p) {
      var k :| 0 <= k < |newValue| && !IsWhiteSpace(newValue[k]);
      assert r[k] == newValue[k];
    } else if !IsWhiteSpace(s[0]) {
      assert r[0] == s[0];
    } else {
      assert !Blank(s[1..]) by {
        var k :| 0 <= k < |s| && !IsWhiteSpace(s[k]);
        assert k > 0 && s[1..][k - 1] == s[k];
      }
      ReplaceKeepsNonBlank(s[1..], p, newValue);
      var rest := Replace(s[1..], p, newValue);
      var k :| 0 <= k < |rest| && !IsWhiteSpace(rest[k]);
      assert r[k + 1] == rest[k];
    }
  }
}
