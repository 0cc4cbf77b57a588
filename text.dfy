/** The string operations the script applies: `endswith`, `split(c)[0]`,
    `strip(c)`, `sep.join(xs)`, `lower()` (ASCII letters only), and the
    order Python compares strings by (code point by code point, a proper
    prefix first). */
module Text {

  /** `s.endswith(suffix)`: the last `|suffix|` characters of `s` are those
      of `suffix`, one by one. */
  predicate EndsWith(s: string, suffix: string): (b: bool)
    ensures b <==> |suffix| <= |s| && forall k :: 0 <= k < |suffix| ==> s[|s| - |suffix| + k] == suffix[k]
  {
    |suffix| <= |s| && s[|s| - |suffix|..] == suffix
  }

  /** `s.split(c)[0]`: the text before the first `c`, or all of `s` when it
      holds none. */
  function BeforeFirst(s: string, c: char): (r: string)
    ensures c !in r
    ensures r <= s
    ensures |r| < |s| ==> s[|r|] == c
  {
    if s == [] || s[0] == c then [] else [s[0]] + BeforeFirst(s[1..], c)
  }

  /** When the first `c` of `s` is at index `n`, the text before it is `s[..n]`. */
  lemma {:induction false} BeforeFirstAt(s: string, c: char, n: nat)
    requires n < |s| && s[n] == c
    requires forall k :: 0 <= k < n ==> s[k] != c
    ensures BeforeFirst(s, c) == s[..n]
  {
    if n > 0 {
      BeforeFirstAt(s[1..], c, n - 1);
      assert s[..n] == [s[0]] + s[1..][..n - 1];
    }
  }

  /** `s.lstrip(c)`: `s` without its leading run of `c`. */
  function TrimLeft(s: string, c: char): (r: string)
    ensures |r| <= |s| && r == s[|s| - |r|..]
    ensures forall k :: 0 <= k < |s| - |r| ==> s[k] == c
    ensures r == [] || r[0] != c
  {
    if s != [] && s[0] == c then
      var r := TrimLeft(s[1..], c);
      assert s[1..][|s| - 1 - |r|..] == s[|s| - |r|..];
      assert forall k :: 0 < k < |s| - |r| ==> s[k] == s[1..][k - 1];
      r
    else s
  }

  /** `s.rstrip(c)`: `s` without its trailing run of `c`. */
  function TrimRight(s: string, c: char): (r: string)
    ensures |r| <= |s| && r == s[..|r|]
    ensures forall k :: |r| <= k < |s| ==> s[k] == c
    ensures r == [] || r[|r| - 1] != c
  {
    if s != [] && s[|s| - 1] == c then
      var r := TrimRight(s[..|s| - 1], c);
      assert s[..|s| - 1][..|r|] == s[..|r|];
      r
    else s
  }

  /** `s.strip(c)`: no `c` is left at either end, the result is never
      longer, and a string without `c` is left as it is. */
  function Strip(s: string, c: char): (r: string)
    ensures |r| <= |s|
    ensures r == [] || (r[0] != c && r[|r| - 1] != c)
    ensures c !in s ==> r == s
  {
    TrimRight(TrimLeft(s, c), c)
  }

  /** `sep.join(xs)`: it starts with the first string and ends with the last. */
  function Join(xs: seq<string>, sep: string): (r: string)
    ensures xs != [] ==> xs[0] <= r && EndsWith(r, xs[|xs| - 1])
  {
    if xs == [] then "" else if |xs| == 1 then xs[0] else xs[0] + sep + Join(xs[1..], sep)
  }

  /** With a non-empty separator, the join is empty exactly when there is
      nothing to join or only one empty string. */
  lemma {:induction false} JoinEmpty(xs: seq<string>, sep: string)
    requires sep != ""
    ensures Join(xs, sep) == "" <==> xs == [] || xs == [""]
  {
    if |xs| > 1 {
      assert |Join(xs, sep)| >= |sep|;
    }
  }

  /** A single joined string is that string; each further one adds the
      separator and itself. */
  lemma {:induction false} JoinSnoc(xs: seq<string>, x: string, sep: string)
    ensures Join(xs + [x], sep) == if xs == [] then x else Join(xs, sep) + sep + x
  {
    if |xs| > 1 {
      var ys := xs + [x];
      assert ys[1..] == xs[1..] + [x];
      JoinSnoc(xs[1..], x, sep);
      var rest := Join(xs[1..], sep);
      assert Join(ys, sep) == xs[0] + sep + (rest + sep + x);
      assert Join(xs, sep) == xs[0] + sep + rest;
      ConcatRegroup(xs[0], sep, rest, x);
    } else if |xs| == 1 {
      assert (xs + [x])[1..] == [x];
    }
  }

  /** Regrouping a concatenation of five pieces, the middle two being the
      same separator. */
  lemma ConcatRegroup(a: string, sep: string, b: string, c: string)
    ensures a + sep + (b + sep + c) == (a + sep + b) + sep + c
  {
  }

  /** Python's `lower()` on one character, restricted to ASCII. */
  function LowerChar(c: char): char
  {
    if 'A' <= c <= 'Z' then (c as int + 32) as char else c
  }

  /** `s.lower()`, restricted to ASCII: every letter A-Z goes to a-z, every
      other character stays. */
  function Lower(s: string): (r: string)
    ensures |r| == |s|
    ensures forall i :: 0 <= i < |s| ==> r[i] == LowerChar(s[i])
  {
    if s == [] then [] else [LowerChar(s[0])] + Lower(s[1..])
  }

  /** `a <= b` on Python strings: code point by code point, a prefix first. */
  predicate LexLe(a: string, b: string): (r: bool)
    ensures a <= b ==> r
  {
    if a == [] then true
    else if b == [] then false
    else if a[0] != b[0] then a[0] < b[0]
    else LexLe(a[1..], b[1..])
  }

  /** `a <= b` holds exactly when `a` is a prefix of `b` or the first
      position where they differ holds a smaller code point in `a`. */
  lemma {:induction false} LexLeFirstDifference(a: string, b: string)
    ensures LexLe(a, b) <==> a <= b || exists k :: 0 <= k < |a| && k < |b| && a[..k] == b[..k] && a[k] < b[k]
  {
    if a != [] && b != [] && a[0] == b[0] {
      LexLeFirstDifference(a[1..], b[1..]);
      if exists k :: 0 <= k < |a[1..]| && k < |b[1..]| && a[1..][..k] == b[1..][..k] && a[1..][k] < b[1..][k] {
        var k :| 0 <= k < |a[1..]| && k < |b[1..]| && a[1..][..k] == b[1..][..k] && a[1..][k] < b[1..][k];
        assert a[..k + 1] == [a[0]] + a[1..][..k] && b[..k + 1] == [b[0]] + b[1..][..k];
        assert a[k + 1] < b[k + 1];
      }
      if exists k :: 0 <= k < |a| && k < |b| && a[..k] == b[..k] && a[k] < b[k] {
        var k :| 0 <= k < |a| && k < |b| && a[..k] == b[..k] && a[k] < b[k];
        assert k > 0;
        assert a[1..][..k - 1] == a[..k][1..] && b[1..][..k - 1] == b[..k][1..];
        assert a[1..][k - 1] < b[1..][k - 1];
      }
      assert a <= b <==> a[1..] <= b[1..];
    } else if a != [] && b != [] {
      assert a[..0] == b[..0];
    }
  }

  /** Every string is at most itself. */
  lemma {:induction false} LexLeReflexive(a: string)
    ensures LexLe(a, a)
  {
    if a != [] { LexLeReflexive(a[1..]); }
  }

  /** Two strings each at most the other are equal. */
  lemma {:induction false} LexLeAntisymmetric(a: string, b: string)
    requires LexLe(a, b) && LexLe(b, a)
    ensures a == b
  {
    if a != [] && b != [] {
      LexLeAntisymmetric(a[1..], b[1..]);
      assert a == [a[0]] + a[1..] && b == [b[0]] + b[1..];
    }
  }

  /** The order carries over from `a <= b` and `b <= c` to `a <= c`. */
  lemma {:induction false} LexLeTransitive(a: string, b: string, c: string)
    requires LexLe(a, b) && LexLe(b, c)
    ensures LexLe(a, c)
  {
    if a != [] && b != [] && c != [] && a[0] == b[0] == c[0] {
      LexLeTransitive(a[1..], b[1..], c[1..]);
    }
  }

  /** Any two strings are ordered one way or the other. */
  lemma {:induction false} LexLeTotal(a: string, b: string)
    ensures LexLe(a, b) || LexLe(b, a)
  {
    if a != [] && b != [] && a[0] == b[0] {
      LexLeTotal(a[1..], b[1..]);
    }
  }
}
