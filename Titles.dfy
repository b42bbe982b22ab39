/** main.py's section-title test `is_new_table_title`: a string matching
    `^CARDÁPIO.*(ALMOÇO|JANTAR|DESJEJUM)$` under Python's `re.match`, where
    `.` matches anything but a newline and `$` matches at the end or just
    before one final newline. Anything that is not a string is no title. */
module Titles {
  import opened Cells

  const Prefix: string := "CARD\U{00C1}PIO"
  const Keywords: seq<string> := ["ALMO\U{00C7}O", "JANTAR", "DESJEJUM"]

  predicate StartsWith(s: string, t: string) {
    |t| <= |s| && s[..|t|] == t
  }

  predicate EndsWith(s: string, t: string) {
    |t| <= |s| && s[|s| - |t|..] == t
  }

  /** What `$` allows to follow the match: nothing, or one newline. */
  function DropFinalNewline(s: string): (b: string)
    ensures b == s || s == b + "\n"
  {
    if |s| > 0 && s[|s| - 1] == '\n' then s[..|s| - 1] else s
  }

  /** The keyword k closes b, after the prefix and without overlapping it. */
  predicate KeywordEnds(b: string, k: nat)
    requires k < |Keywords|
  {
    EndsWith(b, Keywords[k]) && |Prefix| + |Keywords[k]| <= |b|
  }

  /** `is_new_table_title`. */
  predicate IsNewTableTitle(text: Cell) {
    match text
    case Text(s) =>
      var b := DropFinalNewline(s);
      '\n' !in b && StartsWith(b, Prefix) && (KeywordEnds(b, 0) || KeywordEnds(b, 1) || KeywordEnds(b, 2))
    case _ => false
  }

  /** The regular expression read literally: the prefix, then a run without
      newlines (s[|Prefix|..i]), then one keyword (s[i..j]), then nothing or
      a single newline. */
  ghost predicate MatchesTitlePattern(s: string) {
    exists i, j :: |Prefix| <= i <= j <= |s| && StartsWith(s, Prefix) && '\n' !in s[|Prefix|..i]
      && s[i..j] in Keywords && (s[j..] == "" || s[j..] == "\n")
  }

  lemma KeywordsHaveNoNewline(k: nat)
    requires k < |Keywords|
    ensures '\n' !in Keywords[k] && |Keywords[k]| > 0 && Keywords[k][|Keywords[k]| - 1] != '\n'
  {
  }

  /** A title, once its final newline is dropped, is the prefix, a
      newline-free run and keyword k: the pattern matches it. */
  lemma TitleMatchesAt(s: string, b: string, k: nat)
    requires b == DropFinalNewline(s) && k < |Keywords|
    requires '\n' !in b && StartsWith(b, Prefix) && KeywordEnds(b, k)
    ensures MatchesTitlePattern(s)
  {
    var kw := Keywords[k];
    var j := |b|;
    var i := j - |kw|;
    assert s[..j] == b;
    assert s[..|Prefix|] == b[..|Prefix|];
    assert s[|Prefix|..i] == b[|Prefix|..i];
    assert '\n' !in s[|Prefix|..i] by {
      forall t | 0 <= t < i - |Prefix|
        ensures s[|Prefix|..i][t] != '\n'
      {
        assert s[|Prefix|..i][t] == b[|Prefix| + t];
      }
    }
    assert s[i..j] == b[i..j] == kw;
    assert s[j..] == "" || s[j..] == "\n";
    assert |Prefix| <= i <= j <= |s| && StartsWith(s, Prefix) && '\n' !in s[|Prefix|..i]
      && s[i..j] in Keywords && (s[j..] == "" || s[j..] == "\n");
  }

  /** Every string `is_new_table_title` accepts matches the pattern. */
  lemma TitleMatchesPattern(s: string)
    requires IsNewTableTitle(Text(s))
    ensures MatchesTitlePattern(s)
  {
    var b := DropFinalNewline(s);
    var k: nat := if KeywordEnds(b, 0) then 0 else if KeywordEnds(b, 1) then 1 else 2;
    TitleMatchesAt(s, b, k);
  }

  /** The part of s before the optional final newline, given where the
      keyword ends. */
  lemma DropFinalNewlineAt(s: string, i: nat, j: nat, k: nat)
    requires i <= j <= |s| && k < |Keywords| && s[i..j] == Keywords[k]
    requires s[j..] == "" || s[j..] == "\n"
    ensures DropFinalNewline(s) == s[..j]
  {
    KeywordsHaveNoNewline(k);
    if s[j..] == "" {
      assert j == |s|;
      assert s[|s| - 1] == Keywords[k][j - i - 1];
    } else {
      assert s[|s| - 1] == '\n' && j == |s| - 1;
    }
  }

  /** The prefix, a newline-free middle and keyword k, in that order, make
      a string `is_new_table_title` accepts once the newline is dropped. */
  lemma TitleFromParts(b: string, i: nat, k: nat)
    requires |Prefix| <= i <= |b| && k < |Keywords| && StartsWith(b, Prefix)
    requires '\n' !in b[|Prefix|..i] && b[i..] == Keywords[k]
    ensures '\n' !in b && KeywordEnds(b, k)
  {
    KeywordsHaveNoNewline(k);
    forall t | 0 <= t < |b|
      ensures b[t] != '\n'
    {
      if t < |Prefix| {
        assert b[t] == Prefix[t];
      } else if t < i {
        assert b[t] == b[|Prefix|..i][t - |Prefix|];
      } else {
        assert b[t] == Keywords[k][t - i];
      }
    }
  }

  /** The prefix, a newline-free run, keyword k ending at j and nothing or
      one newline after it make a title. */
  lemma TitleFromMatch(s: string, i: nat, j: nat, k: nat)
    requires |Prefix| <= i <= j <= |s| && k < |Keywords| && StartsWith(s, Prefix)
    requires '\n' !in s[|Prefix|..i] && s[i..j] == Keywords[k]
    requires s[j..] == "" || s[j..] == "\n"
    ensures IsNewTableTitle(Text(s))
  {
    DropFinalNewlineAt(s, i, j, k);
    var b := s[..j];
    assert b[..|Prefix|] == s[..|Prefix|];
    assert b[|Prefix|..i] == s[|Prefix|..i];
    assert b[i..] == s[i..j];
    TitleFromParts(b, i, k);
    assert DropFinalNewline(s) == b;
  }

  /** Every string the pattern matches is accepted by `is_new_table_title`. */
  lemma PatternMatchesTitle(s: string)
    requires MatchesTitlePattern(s)
    ensures IsNewTableTitle(Text(s))
  {
    var i, j :| |Prefix| <= i <= j <= |s| && StartsWith(s, Prefix) && '\n' !in s[|Prefix|..i]
      && s[i..j] in Keywords && (s[j..] == "" || s[j..] == "\n");
    var k: nat := if s[i..j] == Keywords[0] then 0 else if s[i..j] == Keywords[1] then 1 else 2;
    TitleFromMatch(s, i, j, k);
  }

  /** `is_new_table_title` accepts a string exactly when the pattern matches it. */
  lemma TitleIffPattern(s: string)
    ensures IsNewTableTitle(Text(s)) <==> MatchesTitlePattern(s)
  {
    if IsNewTableTitle(Text(s)) {
      TitleMatchesPattern(s);
    }
    if MatchesTitlePattern(s) {
      PatternMatchesTitle(s);
    }
  }

  /** A title may be followed by one newline. */
  lemma TitleWithNewline(s: string)
    requires s == Prefix + " DE MARIO 2024 JANTAR\n"
    ensures IsNewTableTitle(Text(s))
  {
    var b := Prefix + " DE MARIO 2024 JANTAR";
    assert s == b + "\n";
    assert DropFinalNewline(s) == b;
    var i := |b| - 6;
    assert b[..|Prefix|] == Prefix;
    assert b[|Prefix|..i] == " DE MARIO 2024 ";
    assert b[i..] == "JANTAR" == Keywords[1];
    TitleFromParts(b, i, 1);
  }

  /** A newline inside the title breaks the match, and a cell that is not
      text is no title. */
  lemma TitleCounterexamples(t: string)
    requires t == Prefix + "\nJANTAR"
    ensures !IsNewTableTitle(Text(t))
    ensures !IsNewTableTitle(Missing)
  {
    assert t[|t| - 1] != '\n';
    assert DropFinalNewline(t) == t;
    assert t[|Prefix|] == '\n';
  }
}
