/** The Column Deduplicator, `make_unique_columns` (identical in app.py and
    main.py): every label that occurs more than once has its occurrences
    renamed `label`, `label_1`, `label_2`, ... by 0-based occurrence index,
    one repeated label after another, each pass working on the labels as
    the earlier passes left them. */
module Columns {
  import opened TextUtil
  import opened Sequences

  /** `dup + '_' + str(i)`. */
  function Suffixed(name: string, i: nat): string {
    name + "_" + NatToString(i)
  }

  /** Equal generated names come from the same label and number. */
  lemma SuffixedParts(a: string, n: nat, b: string, m: nat)
    requires Suffixed(a, n) == Suffixed(b, m)
    ensures a == b && n == m
  {
    var dn, dm := NatToString(n), NatToString(m);
    TrailingDigitsAfter(a + "_", dn);
    TrailingDigitsAfter(b + "_", dm);
    var s := Suffixed(a, n);
    assert s == (a + "_") + dn && s == (b + "_") + dm;
    var k := |s| - |dn|;
    assert a + "_" == s[..k] == b + "_";
    assert a == (a + "_")[..|a|] && b == (b + "_")[..|b|];
    assert dn == s[k..] == dm;
    NatToStringRoundTrip(n);
    NatToStringRoundTrip(m);
  }

  /** A generated name determines its label and its number: `a_n` and
      `b_m` coincide exactly when a == b and n == m. */
  lemma SuffixedInjective(a: string, n: nat, b: string, m: nat)
    ensures Suffixed(a, n) == Suffixed(b, m) <==> a == b && n == m
  {
    if Suffixed(a, n) == Suffixed(b, m) {
      SuffixedParts(a, n, b, m);
    }
  }

  /** The entries of cols that repeat an earlier entry (`cols[cols.duplicated()]`). */
  function Duplicated(cols: seq<string>): seq<string>
    decreases |cols|
  {
    if |cols| == 0 then []
    else
      var n := |cols| - 1;
      if cols[n] in cols[..n] then Duplicated(cols[..n]) + [cols[n]] else Duplicated(cols[..n])
  }

  /** Every entry that repeats an earlier one is listed by Duplicated. */
  lemma {:induction false} DuplicatedComplete(cols: seq<string>, k: nat)
    requires k < |cols| && Occurrences(cols, k, cols[k]) > 0
    ensures cols[k] in Duplicated(cols)
    decreases |cols|
  {
    var n := |cols| - 1;
    var p := cols[..n];
    if k < n {
      OccurrencesAgree(cols, p, k, cols[k]);
      DuplicatedComplete(p, k);
    } else {
      OccurrencesPositive(cols, k, cols[k]);
    }
  }

  /** Everything Duplicated lists repeats an earlier entry of cols. */
  lemma {:induction false} DuplicatedSound(cols: seq<string>, x: string)
    requires x in Duplicated(cols)
    ensures exists k :: 0 <= k < |cols| && cols[k] == x && Occurrences(cols, k, x) > 0
    decreases |cols|
  {
    var n := |cols| - 1;
    var p := cols[..n];
    if x in Duplicated(p) {
      DuplicatedSound(p, x);
      var k :| 0 <= k < |p| && p[k] == x && Occurrences(p, k, x) > 0;
      OccurrencesAgree(cols, p, k, x);
    } else {
      assert x == cols[n] && x in p;
      OccurrencesPositive(cols, n, x);
    }
  }

  /** `cols[cols.duplicated()].unique()`: each label that occurs more than
      once, listed once. */
  function RepeatedLabels(cols: seq<string>): (r: seq<string>)
    ensures Distinct(r)
    ensures forall k :: 0 <= k < |r| ==> r[k] in cols
  {
    var d := Duplicated(cols);
    var r := Unique(d);
    forall k | 0 <= k < |r| ensures r[k] in cols {
      DuplicatedSound(cols, r[k]);
    }
    r
  }

  /** A label is repeated, in the sense of `duplicated()`, iff it is listed. */
  lemma RepeatedLabelsMembers(cols: seq<string>, k: nat)
    requires k < |cols|
    ensures cols[k] in RepeatedLabels(cols) <==> exists j :: 0 <= j < |cols| && cols[j] == cols[k] && Occurrences(cols, j, cols[k]) > 0
  {
    var x := cols[k];
    var d := Duplicated(cols);
    if x in RepeatedLabels(cols) {
      DuplicatedSound(cols, x);
    }
    if exists j :: 0 <= j < |cols| && cols[j] == x && Occurrences(cols, j, x) > 0 {
      var j :| 0 <= j < |cols| && cols[j] == x && Occurrences(cols, j, x) > 0;
      DuplicatedComplete(cols, j);
      var i :| 0 <= i < |d| && d[i] == x;
    }
  }

  /** One pass for the repeated label dup: its occurrence with 0-based index
      o > 0 becomes `dup_o`; everything else is kept. */
  function RenameRepeats(cols: seq<string>, dup: string): (r: seq<string>)
    ensures |r| == |cols|
    ensures |cols| > 0 ==> r[0] == cols[0]
  {
    seq(|cols|, k requires 0 <= k < |cols| =>
      var o := Occurrences(cols, k, dup);
      if cols[k] == dup && o > 0 then Suffixed(dup, o) else cols[k])
  }

  /** The passes for dups, in order, each on the result of the previous ones. */
  function RenameAll(cols: seq<string>, dups: seq<string>): (r: seq<string>)
    ensures |r| == |cols|
    ensures |cols| > 0 ==> r[0] == cols[0]
    decreases |dups|
  {
    if |dups| == 0 then cols
    else RenameRepeats(RenameAll(cols, dups[..|dups| - 1]), dups[|dups| - 1])
  }

  /** The labels `make_unique_columns` gives a header: as many as before,
      the first one kept, and every label that occurs once kept. */
  function UniqueColumns(labels: seq<string>): (r: seq<string>)
    ensures |r| == |labels|
    ensures |labels| > 0 ==> r[0] == labels[0]
    ensures forall p :: 0 <= p < |labels| && OccursOnceAt(labels, p) ==> r[p] == labels[p]
  {
    forall p | 0 <= p < |labels| && OccursOnceAt(labels, p)
      ensures RenameAll(labels, RepeatedLabels(labels))[p] == labels[p]
    {
      SingleLabelKept(labels, p);
    }
    RenameAll(labels, RepeatedLabels(labels))
  }

  /** The label the occurrence at position k deserves: unchanged if it is the
      first occurrence of its label, `label_o` if it is the o-th repeat. */
  function OccurrenceName(labels: seq<string>, k: nat): string
    requires k < |labels|
  {
    var o := Occurrences(labels, k, labels[k]);
    if o == 0 then labels[k] else Suffixed(labels[k], o)
  }

  /** No generated name `label_o` is already one of the labels. */
  predicate NoSuffixClash(labels: seq<string>) {
    forall k :: 0 <= k < |labels| && Occurrences(labels, k, labels[k]) > 0 ==>
      Suffixed(labels[k], Occurrences(labels, k, labels[k])) !in labels
  }

  predicate OccursOnceAt(labels: seq<string>, p: nat)
    requires p < |labels|
  {
    forall j :: 0 <= j < |labels| && j != p ==> labels[j] != labels[p]
  }

  /** A position whose label is none of the passes' labels is never touched. */
  lemma {:induction false} RenameAllKeeps(cols: seq<string>, dups: seq<string>, p: nat)
    requires p < |cols| && cols[p] !in dups
    ensures RenameAll(cols, dups)[p] == cols[p]
    decreases |dups|
  {
    if |dups| > 0 {
      var ds := dups[..|dups| - 1];
      assert cols[p] !in ds;
      RenameAllKeeps(cols, ds, p);
    }
  }

  /** A label that occurs once is not repeated, so no pass touches it. */
  lemma SingleLabelKept(labels: seq<string>, p: nat)
    requires p < |labels| && OccursOnceAt(labels, p)
    ensures RenameAll(labels, RepeatedLabels(labels))[p] == labels[p]
  {
    var x := labels[p];
    forall k | 0 <= k < |labels| && labels[k] == x
      ensures Occurrences(labels, k, x) == 0
    {
      assert k == p;
      OccurrencesPositive(labels, p, x);
    }
    RepeatedLabelsMembers(labels, p);
    RenameAllKeeps(labels, RepeatedLabels(labels), p);
  }

  /** Without a clash, a name the passes for ds gave is the label d, which
      is not among ds, only where the label already was d. */
  lemma RenamedIsDup(labels: seq<string>, ds: seq<string>, d: string, j: nat, c: string)
    requires NoSuffixClash(labels) && j < |labels| && d in labels && d !in ds
    requires c == if labels[j] in ds then OccurrenceName(labels, j) else labels[j]
    ensures c == d <==> labels[j] == d
  {
  }

  /** While no generated name clashes with an existing label, after the passes
      for the distinct labels dups every occurrence of one of them carries its
      occurrence name and every other position is untouched. */
  lemma {:induction false} RenameAllWithoutClash(labels: seq<string>, dups: seq<string>, p: nat)
    requires NoSuffixClash(labels)
    requires Distinct(dups) && forall k :: 0 <= k < |dups| ==> dups[k] in labels
    requires p < |labels|
    ensures RenameAll(labels, dups)[p] == if labels[p] in dups then OccurrenceName(labels, p) else labels[p]
    decreases |dups|
  {
    if |dups| > 0 {
      var ds := dups[..|dups| - 1];
      var d := dups[|dups| - 1];
      assert dups == ds + [d];
      var cur := RenameAll(labels, ds);
      forall j | 0 <= j < |labels|
        ensures cur[j] == if labels[j] in ds then OccurrenceName(labels, j) else labels[j]
      {
        RenameAllWithoutClash(labels, ds, j);
      }
      assert d !in ds;
      forall j | 0 <= j < |labels| ensures cur[j] == d <==> labels[j] == d {
        RenamedIsDup(labels, ds, d, j, cur[j]);
      }
      OccurrencesAgree(cur, labels, p, d);
    }
  }

  /** Without a clash, make_unique_columns renames exactly as documented:
      the o-th repeat (0-based) of a label becomes `label_o`. */
  lemma UniqueColumnsWithoutClash(labels: seq<string>, p: nat)
    requires NoSuffixClash(labels) && p < |labels|
    ensures UniqueColumns(labels)[p] == OccurrenceName(labels, p)
  {
    var ds := RepeatedLabels(labels);
    RenameAllWithoutClash(labels, ds, p);
    RepeatedLabelsMembers(labels, p);
  }

  /** Without a clash, two positions never receive the same name. */
  lemma OccurrenceNamesDiffer(labels: seq<string>, p: nat, q: nat)
    requires NoSuffixClash(labels) && p < q < |labels|
    ensures OccurrenceName(labels, p) != OccurrenceName(labels, q)
  {
    var op := Occurrences(labels, p, labels[p]);
    var oq := Occurrences(labels, q, labels[q]);
    OccurrencesGrow(labels, p, q, labels[p]);
    OccurrencesPositive(labels, q, labels[q]);
    assert labels[..q][p] == labels[p];
    SuffixedInjective(labels[p], op, labels[q], oq);
    assert labels[p] in labels && labels[q] in labels;
  }

  /** When no generated name is already a label, `make_unique_columns`
      gives every position its occurrence name and so does make the labels
      unique. */
  lemma UniqueColumnsDistinct(labels: seq<string>)
    requires NoSuffixClash(labels)
    ensures forall p :: 0 <= p < |labels| ==> UniqueColumns(labels)[p] == OccurrenceName(labels, p)
    ensures Distinct(UniqueColumns(labels))
  {
    var cols := UniqueColumns(labels);
    forall p | 0 <= p < |labels|
      ensures cols[p] == OccurrenceName(labels, p)
    {
      UniqueColumnsWithoutClash(labels, p);
    }
    forall p, q | 0 <= p < q < |cols|
      ensures cols[p] != cols[q]
    {
      UniqueColumnsWithoutClash(labels, p);
      UniqueColumnsWithoutClash(labels, q);
      OccurrenceNamesDiffer(labels, p, q);
    }
  }

  /** One vectorised assignment of `make_unique_columns`: the positions
      holding dup receive dup, dup_1, dup_2, ... in order. */
  method RenameOccurrences(cols: seq<string>, dup: string) returns (r: seq<string>)
    ensures r == RenameRepeats(cols, dup)
  {
    ghost var target := RenameRepeats(cols, dup);
    r := cols;
    var seen := 0;
    var k := 0;
    while k < |r|
      invariant 0 <= k <= |r| == |cols|
      invariant seen == Occurrences(cols, k, dup)
      invariant forall i :: 0 <= i < k ==> r[i] == target[i]
      invariant forall i :: k <= i < |r| ==> r[i] == cols[i]
    {
      if r[k] == dup {
        if seen > 0 {
          r := r[k := Suffixed(dup, seen)];
        }
        seen := seen + 1;
      }
      k := k + 1;
    }
  }

  /** One more pass on top of the first j. */
  lemma RenameAllStep(cols: seq<string>, dups: seq<string>, j: nat)
    requires j < |dups|
    ensures RenameAll(cols, dups[..j + 1]) == RenameRepeats(RenameAll(cols, dups[..j]), dups[j])
  {
    assert dups[..j + 1][..j] == dups[..j];
  }

  /** `make_unique_columns`: one renaming pass per repeated label, each on
      the labels the earlier passes produced. */
  method MakeUniqueColumns(labels: seq<string>) returns (cols: seq<string>)
    ensures cols == UniqueColumns(labels)
    ensures |cols| == |labels|
    ensures |labels| > 0 ==> cols[0] == labels[0]
    ensures forall p :: 0 <= p < |labels| && OccursOnceAt(labels, p) ==> cols[p] == labels[p]
    ensures NoSuffixClash(labels) ==> forall p :: 0 <= p < |labels| ==> cols[p] == OccurrenceName(labels, p)
    ensures NoSuffixClash(labels) ==> Distinct(cols)
  {
    var dups := RepeatedLabels(labels);
    cols := labels;
    var j := 0;
    while j < |dups|
      invariant 0 <= j <= |dups|
      invariant cols == RenameAll(labels, dups[..j])
    {
      RenameAllStep(labels, dups, j);
      cols := RenameOccurrences(cols, dups[j]);
      j := j + 1;
    }
    assert dups[..|dups|] == dups;
    if NoSuffixClash(labels) {
      UniqueColumnsDistinct(labels);
    }
  }

  /** The names the example header deserves, position by position. */
  lemma ExampleNames(labels: seq<string>)
    requires labels == ["A", "B", "A", "A"]
    ensures OccurrenceName(labels, 0) == "A" && OccurrenceName(labels, 1) == "B"
    ensures OccurrenceName(labels, 2) == "A_1" && OccurrenceName(labels, 3) == "A_2"
    ensures NoSuffixClash(labels)
  {
    assert Occurrences(labels, 1, "A") == 1;
    assert Occurrences(labels, 2, "A") == 1;
    assert Occurrences(labels, 3, "A") == 2;
    assert Occurrences(labels, 1, "B") == 0;
    assert NatToString(1) == "1" && NatToString(2) == "2";
    assert Suffixed("A", 1) == "A_1" && Suffixed("A", 2) == "A_2";
    forall k | 0 <= k < |labels| && Occurrences(labels, k, labels[k]) > 0
      ensures Suffixed(labels[k], Occurrences(labels, k, labels[k])) !in labels
    {
      assert k == 2 || k == 3;
    }
  }

  /** ["A","B","A","A"] becomes ["A","B","A_1","A_2"]. */
  lemma RepeatsNumbered(labels: seq<string>)
    requires labels == ["A", "B", "A", "A"]
    ensures UniqueColumns(labels) == ["A", "B", "A_1", "A_2"]
  {
    ExampleNames(labels);
    UniqueColumnsDistinct(labels);
    var r := UniqueColumns(labels);
    assert r[0] == OccurrenceName(labels, 0) && r[1] == OccurrenceName(labels, 1);
    assert r[2] == OccurrenceName(labels, 2) && r[3] == OccurrenceName(labels, 3);
  }

  lemma DuplicatedExample()
    ensures RepeatedLabels(["A", "A", "A_1"]) == ["A"]
  {
    var labels := ["A", "A", "A_1"];
    assert labels[..2] == ["A", "A"];
    assert labels[..2][..1] == ["A"];
    assert ["A"][..0] == [];
    assert Duplicated(["A"]) == [];
    assert Duplicated(labels) == ["A"];
    UniqueOfDistinct(["A"]);
  }

  /** The result need not be unique: ["A","A","A_1"] becomes ["A","A_1","A_1"]. */
  lemma UniquenessNotGuaranteed()
    ensures UniqueColumns(["A", "A", "A_1"]) == ["A", "A_1", "A_1"]
  {
    var labels := ["A", "A", "A_1"];
    DuplicatedExample();
    var r := UniqueColumns(labels);
    assert ["A"][..0] == [];
    assert r == RenameRepeats(labels, "A");
    assert Occurrences(labels, 1, "A") == 1;
    assert Suffixed("A", 1) == "A_1";
    assert r[1] == "A_1";
    RenameAllKeeps(labels, ["A"], 2);
  }

  /** Renaming can make the first label repeated: in ["A_1","A","A"] the
      second "A" becomes "A_1", which is already the first label. */
  lemma FirstLabelClash()
    ensures UniqueColumns(["A_1", "A", "A"]) == ["A_1", "A", "A_1"]
  {
    var labels := ["A_1", "A", "A"];
    assert labels[..2] == ["A_1", "A"];
    assert labels[..2][..1] == ["A_1"];
    assert ["A_1"][..0] == [];
    assert Duplicated(["A_1"]) == [];
    assert Duplicated(["A_1", "A"]) == [];
    assert Duplicated(labels) == ["A"];
    UniqueOfDistinct(["A"]);
    var r := UniqueColumns(labels);
    assert ["A"][..0] == [];
    assert r == RenameRepeats(labels, "A");
    assert Occurrences(labels, 1, "A") == 0;
    assert Occurrences(labels, 2, "A") == 1;
    assert Suffixed("A", 1) == "A_1";
    assert r[1] == "A" && r[2] == "A_1";
  }
}
