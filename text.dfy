/**
 * The string primitives the number field is built from: the JavaScript
 * string methods `indexOf`, `replace` (string pattern, first occurrence),
 * `replaceAll` and `substr`, and the Ext helpers `Ext.String.repeat` and
 * `Ext.String.insert`. Strings are `seq<char>`, one element per Unicode
 * scalar value; JavaScript counts UTF-16 code units instead, so the two
 * lengths agree only on text within the Basic Multilingual Plane.
 */
module Text {

  /** `pat` occurs in `s` starting at index `i`. */
  predicate OccursAt(s: string, pat: string, i: int)
  {
    0 <= i && i + |pat| <= |s| && s[i..i + |pat|] == pat
  }

  lemma OccursAtTail(s: string, pat: string)
    requires |s| > 0
    ensures forall i :: 1 <= i ==> (OccursAt(s, pat, i) <==> OccursAt(s[1..], pat, i - 1))
  {
    forall i | 1 <= i
      ensures OccursAt(s, pat, i) <==> OccursAt(s[1..], pat, i - 1)
    {
      if i + |pat| <= |s| {
        assert s[1..][i - 1..i - 1 + |pat|] == s[i..i + |pat|];
      }
    }
  }

  /**
   * `s.indexOf(pat)`: the first index at which `pat` occurs, or -1 when it
   * does not occur. The empty pattern occurs at index 0 of every string.
   */
  function IndexOf(s: string, pat: string): (p: int)
    ensures p == -1 || 0 <= p <= |s| - |pat|
    ensures p >= 0 ==> OccursAt(s, pat, p) && forall i :: 0 <= i < p ==> !OccursAt(s, pat, i)
    ensures p == -1 ==> forall i :: !OccursAt(s, pat, i)
    decreases |s|
  {
    if |s| < |pat| then -1
    else if s[..|pat|] == pat then 0
    else
      var q := IndexOf(s[1..], pat);
      OccursAtTail(s, pat);
      if q == -1 then -1 else q + 1
  }

  /** The first occurrence is at `p` exactly when `IndexOf` says so. */
  lemma IndexOfIs(s: string, pat: string, p: int)
    requires OccursAt(s, pat, p)
    requires forall i :: 0 <= i < p ==> !OccursAt(s, pat, i)
    ensures IndexOf(s, pat) == p
  {
  }

  /** Appending text never moves an occurrence that is already there. */
  lemma IndexOfExtend(v: string, w: string, pat: string)
    requires IndexOf(v, pat) >= 0
    ensures IndexOf(v + w, pat) == IndexOf(v, pat)
  {
    var p := IndexOf(v, pat);
    assert (v + w)[p..p + |pat|] == v[p..p + |pat|];
    forall i | 0 <= i < p
      ensures !OccursAt(v + w, pat, i)
    {
      assert i + |pat| <= |v|;
      assert (v + w)[i..i + |pat|] == v[i..i + |pat|];
      assert !OccursAt(v, pat, i);
    }
    IndexOfIs(v + w, pat, p);
  }

  /**
   * A string without `pat`, followed by `pat`, has its first occurrence no
   * later than the appended one; for a one-character pattern, exactly there.
   */
  lemma IndexOfAppended(v: string, pat: string, w: string)
    requires IndexOf(v, pat) == -1
    ensures 0 <= IndexOf(v + pat + w, pat) <= |v|
    ensures |pat| == 1 ==> IndexOf(v + pat + w, pat) == |v|
  {
    var s := v + pat + w;
    assert s[|v|..|v| + |pat|] == pat;
    assert OccursAt(s, pat, |v|);
    if |pat| == 1 {
      forall i | 0 <= i < |v|
        ensures !OccursAt(s, pat, i)
      {
        assert s[i..i + 1] == v[i..i + 1];
        assert !OccursAt(v, pat, i);
      }
      IndexOfIs(s, pat, |v|);
    }
  }

  /** `s` with every `c` removed and every other character kept, in order. */
  function Without(s: string, c: char): (r: string)
    ensures forall i :: 0 <= i < |r| ==> r[i] != c
    ensures |r| <= |s|
    ensures (forall i :: 0 <= i < |s| ==> s[i] != c) ==> r == s
  {
    if s == [] then []
    else (if s[0] == c then [] else [s[0]]) + Without(s[1..], c)
  }

  /** Filtering adds no character. */
  lemma {:induction false} WithoutSubset(s: string, c: char, x: char)
    requires x !in s
    ensures x !in Without(s, c)
  {
    if s != [] {
      WithoutSubset(s[1..], c, x);
    }
  }

  lemma {:induction false} WithoutConcat(a: string, b: string, c: char)
    ensures Without(a + b, c) == Without(a, c) + Without(b, c)
  {
    if a == [] {
      assert a + b == b;
    } else {
      assert (a + b)[1..] == a[1..] + b;
      WithoutConcat(a[1..], b, c);
    }
  }

  /**
   * `s.replaceAll(pat, rep)` with a string pattern: occurrences are found
   * left to right and do not overlap; the empty pattern matches before every
   * character and at the end.
   */
  function ReplaceAll(s: string, pat: string, rep: string): (r: string)
    ensures pat != [] && IndexOf(s, pat) == -1 ==> r == s
    ensures pat != [] && rep == [] ==> |r| <= |s|
    decreases |s|
  {
    if pat == [] then
      if s == [] then rep else rep + [s[0]] + ReplaceAll(s[1..], pat, rep)
    else if |s| < |pat| then s
    else if s[..|pat|] == pat then rep + ReplaceAll(s[|pat|..], pat, rep)
    else
      OccursAtTail(s, pat);
      assert IndexOf(s, pat) == -1 ==> IndexOf(s[1..], pat) == -1;
      [s[0]] + ReplaceAll(s[1..], pat, rep)
  }

  /** Removing a one-character pattern is filtering that character out. */
  lemma {:induction false} RemoveAllChar(s: string, c: char)
    ensures ReplaceAll(s, [c], []) == Without(s, c)
  {
    if s != [] {
      RemoveAllChar(s[1..], c);
    }
  }

  /** Removing the empty pattern changes nothing. */
  lemma {:induction false} RemoveAllEmpty(s: string)
    ensures ReplaceAll(s, [], []) == s
  {
    if s != [] {
      RemoveAllEmpty(s[1..]);
    }
  }

  /** Replacing one character by another rewrites exactly those positions. */
  lemma {:induction false} ReplaceAllChar(s: string, a: char, b: char)
    ensures |ReplaceAll(s, [a], [b])| == |s|
    ensures forall i :: 0 <= i < |s| ==>
      ReplaceAll(s, [a], [b])[i] == if s[i] == a then b else s[i]
  {
    if s != [] {
      ReplaceAllChar(s[1..], a, b);
      var r := ReplaceAll(s, [a], [b]);
      assert r == [if s[0] == a then b else s[0]] + ReplaceAll(s[1..], [a], [b]);
    }
  }

  /**
   * `s.replace(pat, rep)` with a string pattern: only the first occurrence
   * is replaced (the `$` substitution patterns of `rep` are not modelled).
   */
  function ReplaceFirst(s: string, pat: string, rep: string): (r: string)
    ensures IndexOf(s, pat) == -1 ==> r == s
    ensures IndexOf(s, pat) >= 0 ==>
      var p := IndexOf(s, pat);
      |r| == |s| - |pat| + |rep| && r[..p] == s[..p] && r[p..p + |rep|] == rep &&
      r[p + |rep|..] == s[p + |pat|..]
  {
    var p := IndexOf(s, pat);
    if p == -1 then s else s[..p] + rep + s[p + |pat|..]
  }

  /** A one-character pattern occurs exactly where that character stands. */
  lemma OccursAtChar(s: string, c: char, i: int)
    ensures OccursAt(s, [c], i) <==> 0 <= i < |s| && s[i] == c
  {
    if 0 <= i < |s| {
      assert s[i..i + 1] == [s[i]];
    }
  }

  /** The first index of a character that occurs is where it first stands. */
  lemma IndexOfChar(s: string, c: char)
    ensures c !in s <==> IndexOf(s, [c]) == -1
    ensures c in s ==>
      var p := IndexOf(s, [c]);
      0 <= p < |s| && s[p] == c && c !in s[..p]
  {
    var p := IndexOf(s, [c]);
    OccursAtChar(s, c, p);
    if c in s {
      var k :| 0 <= k < |s| && s[k] == c;
      OccursAtChar(s, c, k);
      forall i | 0 <= i < p
        ensures s[..p][i] != c
      {
        OccursAtChar(s, c, i);
      }
    }
  }

  /**
   * For one character, `replace` rewrites the single position `IndexOf`
   * finds (the first one holding it, by `IndexOfChar`) and leaves every
   * other character, later occurrences included, in place.
   */
  lemma ReplaceFirstChar(s: string, c: char, d: char)
    ensures IndexOf(s, [c]) == -1 ==> ReplaceFirst(s, [c], [d]) == s
    ensures IndexOf(s, [c]) >= 0 ==> ReplaceFirst(s, [c], [d]) == s[IndexOf(s, [c]) := d]
  {
    var p := IndexOf(s, [c]);
    if p >= 0 {
      assert s[..p] + [d] + s[p + 1..] == s[p := d];
    }
  }

  /**
   * `Ext.String.repeat(pattern, count)` for a one-character pattern: a count
   * below 1 yields the empty string.
   */
  function Repeat(c: char, count: int): (r: string)
    ensures |r| == if count < 1 then 0 else count
    ensures forall i :: 0 <= i < |r| ==> r[i] == c
    decreases if count < 1 then 0 else count
  {
    if count < 1 then [] else [c] + Repeat(c, count - 1)
  }

  /** `s.substr(0, n)`: the first `n` characters, or all of them. */
  function Prefix(s: string, n: nat): (r: string)
    ensures |r| == if n <= |s| then n else |s|
    ensures r <= s
  {
    if n <= |s| then s[..n] else s
  }

  /** `s.substr(n)`: everything from index `n`, empty past the end. */
  function SuffixFrom(s: string, n: nat): (r: string)
    ensures Prefix(s, n) + r == s
  {
    if n <= |s| then s[n..] else []
  }

  /**
   * `Ext.String.insert(s, value, index)` for a non-negative index: `value`
   * goes in front at 0, at the end from `|s|` on, and between the two parts
   * otherwise.
   */
  function Insert(s: string, value: string, index: nat): (r: string)
    ensures r == Prefix(s, index) + value + SuffixFrom(s, index)
    ensures |r| == |s| + |value|
  {
    if s == [] then value
    else if value == [] then s
    else if index == 0 then value + s
    else if index >= |s| then s + value
    else s[..index] + value + s[index..]
  }
}
