/** String operations of the PHP and JavaScript runtimes that the core relies on. */
module Strings {
  import opened Wrappers

  /** Applies `f` to every character, keeping positions. */
  function MapChars(f: char -> char, s: string): (r: string)
    ensures |r| == |s|
    ensures forall i :: 0 <= i < |s| ==> r[i] == f(s[i])
  {
    seq(|s|, i requires 0 <= i < |s| => f(s[i]))
  }

  lemma MapCharsAppend(f: char -> char, a: string, b: string)
    ensures MapChars(f, a + b) == MapChars(f, a) + MapChars(f, b)
  {
    var l, r := MapChars(f, a + b), MapChars(f, a) + MapChars(f, b);
    assert forall i :: 0 <= i < |l| ==> l[i] == r[i] by {
      forall i | 0 <= i < |l| ensures l[i] == r[i] {
        if i < |a| {
          assert (a + b)[i] == a[i];
        } else {
          assert (a + b)[i] == b[i - |a|];
        }
      }
    }
  }

  /** Keeps the characters that `keep` accepts, in order. */
  function Filter(keep: char -> bool, s: string): (r: string)
    ensures |r| <= |s|
    ensures forall c :: c in r <==> c in s && keep(c)
  {
    if s == [] then [] else (if keep(s[0]) then [s[0]] else []) + Filter(keep, s[1..])
  }

  lemma {:induction false} FilterKeepsAll(keep: char -> bool, s: string)
    requires forall c :: c in s ==> keep(c)
    ensures Filter(keep, s) == s
  {
    if s != [] {
      assert forall c :: c in s[1..] ==> c in s;
      FilterKeepsAll(keep, s[1..]);
      assert s == [s[0]] + s[1..];
    }
  }

  lemma {:induction false} FilterAppend(keep: char -> bool, a: string, b: string)
    ensures Filter(keep, a + b) == Filter(keep, a) + Filter(keep, b)
  {
    if a != [] {
      assert (a + b)[1..] == a[1..] + b;
      FilterAppend(keep, a[1..], b);
    } else {
      assert a + b == b;
    }
  }

  lemma FilterDropsOne(keep: char -> bool, a: string, x: char, b: string)
    requires forall c :: c in a ==> keep(c)
    requires forall c :: c in b ==> keep(c)
    requires !keep(x)
    ensures Filter(keep, a + [x] + b) == a + b
  {
    assert Filter(keep, [x]) == [] by {
      assert [x][1..] == [];
    }
    assert Filter(keep, a + [x]) == a by {
      FilterAppend(keep, a, [x]);
      FilterKeepsAll(keep, a);
    }
    FilterAppend(keep, a + [x], b);
    FilterKeepsAll(keep, b);
  }

  /** The first index at or after `from` whose element `p` accepts. */
  function FirstWhere<T>(p: T -> bool, xs: seq<T>, from: nat): (r: Option<nat>)
    requires from <= |xs|
    ensures r.Some? ==> from <= r.value < |xs| && p(xs[r.value])
    ensures r.Some? ==> forall k :: from <= k < r.value ==> !p(xs[k])
    ensures r.None? <==> forall k :: from <= k < |xs| ==> !p(xs[k])
    decreases |xs| - from
  {
    if from == |xs| then None
    else if p(xs[from]) then Some(from)
    else FirstWhere(p, xs, from + 1)
  }

  /** `needle` occurs in `hay` starting at offset `k`. */
  predicate OccursAt(hay: string, needle: string, k: nat) {
    k + |needle| <= |hay| && hay[k..k + |needle|] == needle
  }

  predicate IsSubstring(needle: string, hay: string) {
    exists k :: 0 <= k <= |hay| && OccursAt(hay, needle, k)
  }

  /** The first offset at or after `from` where `needle` occurs in `hay`. */
  function StrPosFrom(hay: string, needle: string, from: nat): (r: Option<nat>)
    requires from <= |hay|
    ensures r.Some? ==> from <= r.value && OccursAt(hay, needle, r.value)
    ensures r.Some? ==> forall k :: from <= k < r.value ==> !OccursAt(hay, needle, k)
    ensures r.None? ==> forall k :: from <= k <= |hay| ==> !OccursAt(hay, needle, k)
    decreases |hay| - from
  {
    if OccursAt(hay, needle, from) then Some(from)
    else if from == |hay| then None
    else StrPosFrom(hay, needle, from + 1)
  }

  /** PHP 8's mb_strpos on code points: the first offset of `needle` in `hay`, or no result
      (PHP's false). An empty needle is found at offset 0. */
  function StrPos(hay: string, needle: string): (r: Option<nat>)
    ensures r.Some? ==> OccursAt(hay, needle, r.value)
    ensures r.Some? ==> forall k :: 0 <= k < r.value ==> !OccursAt(hay, needle, k)
    ensures r.Some? <==> IsSubstring(needle, hay)
    ensures needle == [] ==> r == Some(0)
  {
    assert needle == [] ==> OccursAt(hay, needle, 0);
    StrPosFrom(hay, needle, 0)
  }

  /** The length of the longest prefix of `s` whose characters `drop` accepts. */
  function LeadingRun(drop: char -> bool, s: string): (i: nat)
    ensures i <= |s|
    ensures forall k :: 0 <= k < i ==> drop(s[k])
    ensures i < |s| ==> !drop(s[i])
  {
    if s == [] || !drop(s[0]) then 0 else 1 + LeadingRun(drop, s[1..])
  }

  /** Where the longest suffix of `s` whose characters `drop` accepts begins. */
  function TrailingRunStart(drop: char -> bool, s: string): (j: nat)
    ensures j <= |s|
    ensures forall k :: j <= k < |s| ==> drop(s[k])
    ensures 0 < j ==> !drop(s[j - 1])
  {
    if s == [] || !drop(s[|s| - 1]) then |s| else TrailingRunStart(drop, s[..|s| - 1])
  }

  /** `s` without its leading and trailing characters that `drop` accepts. */
  function TrimBy(drop: char -> bool, s: string): (r: string)
    ensures exists i, j ::
              && 0 <= i <= j <= |s| && r == s[i..j]
              && (forall k :: 0 <= k < i ==> drop(s[k]))
              && (forall k :: j <= k < |s| ==> drop(s[k]))
    ensures r != [] ==> !drop(r[0]) && !drop(r[|r| - 1])
    ensures forall c :: c in r ==> c in s
    ensures r == s <==> s == [] || (!drop(s[0]) && !drop(s[|s| - 1]))
  {
    var i := LeadingRun(drop, s);
    var j := TrailingRunStart(drop, s[i..]);
    TrimmedShorter(drop, s, i, j);
    s[i..][..j]
  }

  /** Padding that `drop` accepts on both sides of a text that starts and ends with a kept
      character is exactly what trimming removes. */
  lemma TrimByPadded(drop: char -> bool, p: string, t: string, q: string)
    requires forall c :: c in p ==> drop(c)
    requires forall c :: c in q ==> drop(c)
    requires t != [] && !drop(t[0]) && !drop(t[|t| - 1])
    ensures TrimBy(drop, p + t + q) == t
  {
    var s := p + t + q;
    assert s == p + (t + q);
    LeadingRunPast(drop, p, t + q);
    assert s[|p|..] == t + q;
    TrailingRunBefore(drop, t, q);
    assert (t + q)[..|t|] == t;
  }

  lemma {:induction false} LeadingRunPast(drop: char -> bool, p: string, t: string)
    requires forall c :: c in p ==> drop(c)
    requires t != [] && !drop(t[0])
    ensures LeadingRun(drop, p + t) == |p|
  {
    if p == [] {
      assert p + t == t;
    } else {
      assert p[0] in p && (p + t)[0] == p[0];
      assert (p + t)[1..] == p[1..] + t;
      assert forall c :: c in p[1..] ==> c in p;
      LeadingRunPast(drop, p[1..], t);
    }
  }

  lemma {:induction false} TrailingRunBefore(drop: char -> bool, t: string, q: string)
    requires forall c :: c in q ==> drop(c)
    requires t != [] && !drop(t[|t| - 1])
    ensures TrailingRunStart(drop, t + q) == |t|
  {
    if q == [] {
      assert t + q == t;
    } else {
      var n := |q| - 1;
      assert q[n] in q && (t + q)[|t + q| - 1] == q[n];
      assert (t + q)[..|t + q| - 1] == t + q[..n];
      assert forall c :: c in q[..n] ==> c in q;
      TrailingRunBefore(drop, t, q[..n]);
    }
  }

  lemma TrimmedShorter(drop: char -> bool, s: string, i: nat, j: nat)
    requires i == LeadingRun(drop, s) && j == TrailingRunStart(drop, s[i..])
    ensures s[i..][..j] == s[i..i + j]
    ensures s != [] && (drop(s[0]) || drop(s[|s| - 1])) ==> |s[i..][..j]| < |s|
  {
    if s != [] && (drop(s[0]) || drop(s[|s| - 1])) && i == 0 {
      assert drop(s[|s| - 1]) && s[i..] == s;
    }
  }

  /** PHP's strcmp(a, b) < 0 on strings whose characters order as their UTF-8 bytes do. */
  predicate LexLess(a: string, b: string) {
    if a == [] then b != []
    else if b == [] then false
    else if a[0] != b[0] then a[0] < b[0]
    else LexLess(a[1..], b[1..])
  }

  /** On equal-length prefixes the first difference decides, and otherwise the suffixes do. */
  lemma {:induction false} LexLessAppend(a1: string, a2: string, x: string, y: string)
    requires |a1| == |a2|
    ensures LexLess(a1 + x, a2 + y) <==> LexLess(a1, a2) || (a1 == a2 && LexLess(x, y))
  {
    if a1 != [] {
      assert (a1 + x)[1..] == a1[1..] + x;
      assert (a2 + y)[1..] == a2[1..] + y;
      LexLessAppend(a1[1..], a2[1..], x, y);
      if a1[0] == a2[0] && a1[1..] == a2[1..] {
        assert a1 == [a1[0]] + a1[1..] && a2 == [a2[0]] + a2[1..];
      }
    } else {
      assert a1 + x == x && a2 + y == y;
    }
  }
}
