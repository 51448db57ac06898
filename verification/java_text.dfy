/**
 * The three java.lang.String operations the game relies on, written out on
 * sequences of characters: trim(), replace("", sep) and toLowerCase().
 */
module JavaText {

  /** String.trim() strips every character whose code is at most U+0020. */
  predicate IsTrimmable(c: char) {
    c <= ' '
  }

  predicate AllTrimmable(s: string) {
    forall i :: 0 <= i < |s| ==> IsTrimmable(s[i])
  }

  /** Drops the leading trimmable characters: what is left is a suffix of `s`. */
  function TrimStart(s: string): (r: string)
    ensures |r| <= |s| && r == s[|s| - |r|..]
    ensures r == [] || !IsTrimmable(r[0])
    ensures forall i :: 0 <= i < |s| - |r| ==> IsTrimmable(s[i])
  {
    if |s| > 0 && IsTrimmable(s[0]) then
      var r := TrimStart(s[1..]);
      assert forall i :: 1 <= i < |s| - |r| ==> s[1..][i - 1] == s[i];
      assert s[1..][|s| - 1 - |r|..] == s[|s| - |r|..];
      r
    else s
  }

  /** Drops the trailing trimmable characters: what is left is a prefix of `s`. */
  function TrimEnd(s: string): (r: string)
    ensures |r| <= |s| && r == s[..|r|]
    ensures r == [] || !IsTrimmable(r[|r| - 1])
    ensures forall i :: |r| <= i < |s| ==> IsTrimmable(s[i])
  {
    if |s| > 0 && IsTrimmable(s[|s| - 1]) then
      var r := TrimEnd(s[..|s| - 1]);
      assert forall i :: |r| <= i < |s| - 1 ==> s[..|s| - 1][i] == s[i];
      assert s[..|s| - 1][..|r|] == s[..|r|];
      r
    else s
  }

  /** `r` is the infix of `s` between a run of padding before it and one after it. */
  predicate PaddedInfix(s: string, r: string) {
    exists a, b :: 0 <= a <= b <= |s| && r == s[a..b] && AllTrimmable(s[..a]) && AllTrimmable(s[b..])
  }

  /**
   * String.trim(): the infix of `s` left between its leading and its trailing
   * padding, which itself neither starts nor ends with padding.
   */
  function Trim(s: string): (r: string)
    ensures |r| <= |s|
    ensures r == [] || (!IsTrimmable(r[0]) && !IsTrimmable(r[|r| - 1]))
    ensures PaddedInfix(s, r)
  {
    var front := TrimStart(s);
    var r := TrimEnd(front);
    TrimInfix(s, front, r);
    r
  }

  /**
   * Dropping padding from the front and then from the back leaves the infix
   * between the two dropped runs.
   */
  lemma TrimInfix(s: string, front: string, r: string)
    requires |front| <= |s| && front == s[|s| - |front|..]
    requires forall i :: 0 <= i < |s| - |front| ==> IsTrimmable(s[i])
    requires |r| <= |front| && r == front[..|r|]
    requires forall i :: |r| <= i < |front| ==> IsTrimmable(front[i])
    ensures PaddedInfix(s, r)
  {
    var a := |s| - |front|;
    var b := a + |r|;
    assert r == s[a..b];
    assert AllTrimmable(s[..a]) by {
      forall i | 0 <= i < a ensures IsTrimmable(s[..a][i]) {
        assert s[..a][i] == s[i];
      }
    }
    assert AllTrimmable(s[b..]) by {
      forall i | 0 <= i < |s| - b ensures IsTrimmable(s[b..][i]) {
        assert s[b..][i] == front[|r| + i];
      }
    }
    assert 0 <= a <= b <= |s| && r == s[a..b] && AllTrimmable(s[..a]) && AllTrimmable(s[b..]);
  }

  /** A sequence is its prefix, its middle and its suffix put back together. */
  lemma SplitAround(s: string, a: nat, b: nat)
    requires a <= b <= |s|
    ensures s == s[..a] + s[a..b] + s[b..]
  {
    assert s[..b] == s[..a] + s[a..b];
  }

  /** A padded infix is the middle of padding + infix + padding. */
  lemma PaddedSplit(s: string, r: string)
    requires PaddedInfix(s, r)
    ensures exists p, q :: s == p + r + q && AllTrimmable(p) && AllTrimmable(q)
  {
    var a, b :| 0 <= a <= b <= |s| && r == s[a..b] && AllTrimmable(s[..a]) && AllTrimmable(s[b..]);
    SplitAround(s, a, b);
  }

  lemma {:induction false} TrimStartPadded(p: string, x: string)
    requires AllTrimmable(p)
    requires x == [] || !IsTrimmable(x[0])
    ensures TrimStart(p + x) == x
  {
    if p == [] {
      assert p + x == x;
    } else {
      assert (p + x)[1..] == p[1..] + x;
      TrimStartPadded(p[1..], x);
    }
  }

  lemma {:induction false} TrimEndPadded(x: string, q: string)
    requires AllTrimmable(q)
    requires x == [] || !IsTrimmable(x[|x| - 1])
    ensures TrimEnd(x + q) == x
  {
    if q == [] {
      assert x + q == x;
    } else {
      var xq := x + q;
      assert xq[..|xq| - 1] == x + q[..|q| - 1];
      TrimEndPadded(x, q[..|q| - 1]);
    }
  }

  /** Trimming removes exactly the padding around a non-empty word that does not start or end with padding. */
  lemma TrimPadded(p: string, w: string, q: string)
    requires AllTrimmable(p) && AllTrimmable(q)
    requires |w| > 0 && !IsTrimmable(w[0]) && !IsTrimmable(w[|w| - 1])
    ensures Trim(p + w + q) == w
  {
    assert p + w + q == p + (w + q);
    TrimStartPadded(p, w + q);
    TrimEndPadded(w, q);
  }

  /**
   * s.replace("", sep): the separator is inserted before every character and
   * once more at the end, so "ab" becomes " a b ".
   */
  function ReplaceEmpty(s: string, sep: char): (r: string)
    ensures |r| == 2 * |s| + 1
    ensures forall i :: 0 <= i < |s| ==> r[2 * i] == sep && r[2 * i + 1] == s[i]
    ensures r[2 * |s|] == sep
  {
    if s == [] then [sep]
    else
      var front := ReplaceEmpty(s[..|s| - 1], sep);
      var r := front + [s[|s| - 1], sep];
      assert forall i :: 0 <= i < |s| - 1 ==>
        s[..|s| - 1][i] == s[i] && r[2 * i] == front[2 * i] && r[2 * i + 1] == front[2 * i + 1];
      r
  }

  /**
   * Character.toLowerCase on the two alphabets the game meets: Latin A-Z and
   * Cyrillic А-Я (each 32 code points below its lower-case letter) and Ё,
   * whose lower case ё lies outside that block. Every other character is kept.
   */
  function LowerChar(c: char): (r: char)
    ensures IsTrimmable(c) ==> r == c
    ensures ('A' <= c <= 'Z' || 'А' <= c <= 'Я') ==> r as int == c as int + 32
  {
    if 'A' <= c <= 'Z' || 'А' <= c <= 'Я' then (c as int + 32) as char
    else if c == 'Ё' then 'ё'
    else c
  }

  function ToLower(s: string): (r: string)
    ensures |r| == |s|
    ensures forall i :: 0 <= i < |s| ==> r[i] == LowerChar(s[i])
  {
    if s == [] then [] else [LowerChar(s[0])] + ToLower(s[1..])
  }
}
