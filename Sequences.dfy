/** Counting and keep-first de-duplication over sequences, as pandas does it
    for `Series.duplicated`, `Series.unique` and `DataFrame.drop_duplicates`. */
module Sequences {

  /** How many of the first k elements of s equal x. */
  function Occurrences<T(==)>(s: seq<T>, k: nat, x: T): (n: nat)
    requires k <= |s|
    ensures n <= k
  {
    if k == 0 then 0 else Occurrences(s, k - 1, x) + (if s[k - 1] == x then 1 else 0)
  }

  /** x occurs in s (among the first k elements) iff it is counted. */
  lemma {:induction false} OccurrencesPositive<T>(s: seq<T>, k: nat, x: T)
    requires k <= |s|
    ensures Occurrences(s, k, x) > 0 <==> x in s[..k]
    decreases k
  {
    if k > 0 {
      OccurrencesPositive(s, k - 1, x);
      assert s[..k] == s[..k - 1] + [s[k - 1]];
    }
  }

  /** Two sequences that agree on where x stands count x alike. */
  lemma {:induction false} OccurrencesAgree<T>(s: seq<T>, t: seq<T>, k: nat, x: T)
    requires k <= |s| && k <= |t|
    requires forall j :: 0 <= j < k ==> (s[j] == x <==> t[j] == x)
    ensures Occurrences(s, k, x) == Occurrences(t, k, x)
    decreases k
  {
    if k > 0 {
      OccurrencesAgree(s, t, k - 1, x);
    }
  }

  /** A later occurrence of x is counted after every earlier one. */
  lemma {:induction false} OccurrencesGrow<T>(s: seq<T>, p: nat, q: nat, x: T)
    requires p < q <= |s| && s[p] == x
    ensures Occurrences(s, q, x) > Occurrences(s, p, x)
    decreases q
  {
    if q > p + 1 {
      OccurrencesGrow(s, p, q - 1, x);
    }
  }

  predicate Distinct<T(==)>(s: seq<T>) {
    forall i, j :: 0 <= i < j < |s| ==> s[i] != s[j]
  }

  /** The distinct elements of s in order of first appearance. */
  function Unique<T(==)>(s: seq<T>): (r: seq<T>)
    ensures forall k :: 0 <= k < |r| ==> r[k] in s
    ensures forall k :: 0 <= k < |s| ==> s[k] in r
    ensures Distinct(r)
    ensures |r| <= |s|
    decreases |s|
  {
    if |s| == 0 then []
    else
      var r := Unique(s[..|s| - 1]);
      assert s == s[..|s| - 1] + [s[|s| - 1]];
      if s[|s| - 1] in r then r else r + [s[|s| - 1]]
  }

  /** Unique keeps first appearances in order: of two elements of the result,
      the one that comes first also appears first in s. */
  lemma {:induction false} UniqueKeepsFirstOrder<T>(s: seq<T>, i: nat, j: nat)
    requires i < j < |Unique(s)|
    ensures exists a :: 0 <= a < |s| && s[a] == Unique(s)[i] && Unique(s)[j] !in s[..a + 1]
    decreases |s|
  {
    var r := Unique(s);
    var p := s[..|s| - 1];
    var rp := Unique(p);
    assert s == p + [s[|s| - 1]];
    assert r == (if s[|s| - 1] in rp then rp else rp + [s[|s| - 1]]);
    if s[|s| - 1] in rp || j < |rp| {
      assert r[i] == rp[i] && r[j] == rp[j];
      UniqueKeepsFirstOrder(p, i, j);
      var a :| 0 <= a < |p| && p[a] == rp[i] && rp[j] !in p[..a + 1];
      assert s[..a + 1] == p[..a + 1];
    } else {
      assert j == |rp| && r[j] == s[|s| - 1];
      assert r[i] == rp[i] && rp[i] in p;
      var a :| 0 <= a < |p| && p[a] == r[i];
      assert s[..a + 1] == p[..a + 1];
      assert r[j] !in p;
    }
  }

  /** A sequence without repeats is its own Unique. */
  lemma {:induction false} UniqueOfDistinct<T>(s: seq<T>)
    requires Distinct(s)
    ensures Unique(s) == s
    decreases |s|
  {
    if |s| > 0 {
      var p := s[..|s| - 1];
      UniqueOfDistinct(p);
      assert s[|s| - 1] !in p;
      assert p + [s[|s| - 1]] == s;
    }
  }

  /** Unique keeps a repeat-free prefix as it is. */
  lemma {:induction false} UniquePrefix<T>(p: seq<T>, q: seq<T>)
    requires Distinct(p)
    ensures |p| <= |Unique(p + q)| && Unique(p + q)[..|p|] == p
    decreases |q|
  {
    if |q| == 0 {
      assert p + q == p;
      UniqueOfDistinct(p);
    } else {
      var q' := q[..|q| - 1];
      UniquePrefix(p, q');
      assert (p + q)[..|p + q| - 1] == p + q';
    }
  }

  /** The position of the first x in s. */
  function IndexOf<T(==)>(s: seq<T>, x: T): (i: nat)
    requires x in s
    ensures i < |s| && s[i] == x && x !in s[..i]
  {
    if s[0] == x then 0
    else
      var i := 1 + IndexOf(s[1..], x);
      assert s[..i] == [s[0]] + s[1..][..i - 1];
      i
  }

  /** The sequences of ss one after another. */
  function Flatten<T>(ss: seq<seq<T>>): seq<T> {
    if |ss| == 0 then [] else Flatten(ss[..|ss| - 1]) + ss[|ss| - 1]
  }

  /** Every element of Flatten(ss) is an element of one of the ss[k]. */
  lemma {:induction false} FlattenMember<T>(ss: seq<seq<T>>, i: nat)
    requires i < |Flatten(ss)|
    ensures exists k, j :: 0 <= k < |ss| && 0 <= j < |ss[k]| && Flatten(ss)[i] == ss[k][j]
    decreases |ss|
  {
    var init := ss[..|ss| - 1];
    if i < |Flatten(init)| {
      FlattenMember(init, i);
      var k, j :| 0 <= k < |init| && 0 <= j < |init[k]| && Flatten(init)[i] == init[k][j];
      assert ss[k] == init[k];
    } else {
      assert Flatten(ss)[i] == ss[|ss| - 1][i - |Flatten(init)|];
    }
  }

  /** Every element of every ss[k] is an element of Flatten(ss). */
  lemma {:induction false} FlattenContains<T>(ss: seq<seq<T>>, k: nat, j: nat)
    requires k < |ss| && j < |ss[k]|
    ensures ss[k][j] in Flatten(ss)
    decreases |ss|
  {
    var init := ss[..|ss| - 1];
    if k < |init| {
      assert init[k] == ss[k];
      FlattenContains(init, k, j);
    } else {
      assert ss[k][j] == Flatten(ss)[|Flatten(init)| + j];
    }
  }

  /** Flatten puts the first sequence first. */
  lemma {:induction false} FlattenFirst<T>(ss: seq<seq<T>>)
    requires |ss| > 0
    ensures Flatten(ss) == ss[0] + Flatten(ss[1..])
    decreases |ss|
  {
    if |ss| > 1 {
      var init := ss[..|ss| - 1];
      FlattenFirst(init);
      assert init[1..] == ss[1..][..|ss[1..]| - 1];
    } else {
      assert ss[1..] == [];
    }
  }
}
