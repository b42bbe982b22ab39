/** Table cells and the Cell Normalizer: `clean_cell` of app.py (drops every
    carriage return, then trims) and of main.py (trims only). */
module Cells {

  /** One extracted cell: text, a number, or a missing value (pandas NaN). */
  datatype Cell = Text(text: string) | Number(value: real) | Missing

  /** The characters Python's str.strip() removes: those for which
      str.isspace() holds. */
  predicate IsSpace(c: char) {
    var n := c as int;
    (0x09 <= n <= 0x0D) || (0x1C <= n <= 0x20) || n == 0x85 || n == 0xA0
    || n == 0x1680 || (0x2000 <= n <= 0x200A) || n == 0x2028 || n == 0x2029
    || n == 0x202F || n == 0x205F || n == 0x3000
  }

  predicate AllSpace(s: string) {
    forall k :: 0 <= k < |s| ==> IsSpace(s[k])
  }

  /** No whitespace at either end. */
  predicate Trimmed(s: string) {
    |s| == 0 || (!IsSpace(s[0]) && !IsSpace(s[|s| - 1]))
  }

  function StripLeft(s: string): (r: string)
    ensures |r| <= |s| && r == s[|s| - |r|..]
    ensures AllSpace(s[..|s| - |r|])
    ensures |r| == 0 || !IsSpace(r[0])
    decreases |s|
  {
    if |s| > 0 && IsSpace(s[0]) then
      var r := StripLeft(s[1..]);
      assert s[..|s| - |r|] == [s[0]] + s[1..][..|s| - 1 - |r|];
      r
    else s
  }

  function StripRight(s: string): (r: string)
    ensures |r| <= |s| && r == s[..|r|]
    ensures AllSpace(s[|r|..])
    ensures |r| == 0 || !IsSpace(r[|r| - 1])
    decreases |s|
  {
    if |s| > 0 && IsSpace(s[|s| - 1]) then
      var r := StripRight(s[..|s| - 1]);
      assert s[|r|..] == s[..|s| - 1][|r|..] + [s[|s| - 1]];
      r
    else s
  }

  /** Python's s.strip(): no whitespace is left at either end, and every
      character of the result comes from s. */
  function Strip(s: string): (r: string)
    ensures Trimmed(r)
    ensures forall k :: 0 <= k < |r| ==> r[k] in s
  {
    StripRight(StripLeft(s))
  }

  /** Strip removes exactly a whitespace-only prefix and a whitespace-only
      suffix: the result is the longest trimmed part of s between two
      whitespace runs. */
  lemma StripRemovesOnlyOuterSpace(s: string)
    ensures exists i, j :: 0 <= i <= j <= |s| && Strip(s) == s[i..j] && AllSpace(s[..i]) && AllSpace(s[j..])
  {
    var i, j := StripBounds(s);
  }

  /** Slicing a suffix of s again is slicing s. */
  lemma SliceOfSuffix(s: string, i: nat, j: nat)
    requires i <= j <= |s|
    ensures s[i..][..j - i] == s[i..j] && s[i..][j - i..] == s[j..]
  {
  }

  /** Where the stripped text starts and ends in s. */
  lemma StripBounds(s: string) returns (i: nat, j: nat)
    ensures i <= j <= |s| && Strip(s) == s[i..j] && AllSpace(s[..i]) && AllSpace(s[j..])
  {
    var l := StripLeft(s);
    i := |s| - |l|;
    var r := StripRight(l);
    j := i + |r|;
    SliceOfSuffix(s, i, j);
  }

  /** Trimming text that is already trimmed changes nothing. */
  lemma StripTrimmed(s: string)
    requires Trimmed(s)
    ensures Strip(s) == s
  {
  }

  /** Python's s.replace('\r', ''). */
  function RemoveCarriageReturns(s: string): (r: string)
    ensures '\r' !in r
    ensures '\r' !in s ==> r == s
    ensures forall k :: 0 <= k < |r| ==> r[k] in s
    decreases |s|
  {
    if |s| == 0 then ""
    else if s[0] == '\r' then RemoveCarriageReturns(s[1..])
    else
      assert [s[0]] + s[1..] == s;
      [s[0]] + RemoveCarriageReturns(s[1..])
  }

  /** Removing carriage returns works piece by piece: the characters of a
      come out before those of b, so every other character keeps its place
      in the order of the text. */
  lemma {:induction false} RemoveCarriageReturnsAppend(a: string, b: string)
    ensures RemoveCarriageReturns(a + b) == RemoveCarriageReturns(a) + RemoveCarriageReturns(b)
    decreases |a|
  {
    if |a| == 0 {
      assert a + b == b;
    } else {
      assert (a + b)[0] == a[0] && (a + b)[1..] == a[1..] + b;
      RemoveCarriageReturnsAppend(a[1..], b);
    }
  }

  /** pandas `fillna('N/A')` on one cell: a missing value becomes the text "N/A". */
  function FillMissing(c: Cell): (r: Cell)
    ensures r != Missing
    ensures c == Missing ==> r == Text("N/A")
    ensures c != Missing ==> r == c
  {
    if c == Missing then Text("N/A") else c
  }

  /** app.py's clean_cell: on text, remove every '\r' and trim; other cells
      pass through unchanged. */
  function CleanCellApp(c: Cell): (r: Cell)
    ensures c.Text? <==> r.Text?
    ensures !c.Text? ==> r == c
    ensures r.Text? ==> '\r' !in r.text && Trimmed(r.text)
    ensures r.Text? ==> r.text == Strip(RemoveCarriageReturns(c.text))
  {
    match c
    case Text(s) =>
      Text(Strip(RemoveCarriageReturns(s)))
    case _ => c
  }

  /** main.py's clean_cell: on text, trim only; other cells pass through. */
  function CleanCellMain(c: Cell): (r: Cell)
    ensures c.Text? <==> r.Text?
    ensures !c.Text? ==> r == c
    ensures r.Text? ==> Trimmed(r.text)
    ensures r.Text? ==> r.text == Strip(c.text)
  {
    match c
    case Text(s) => Text(Strip(s))
    case _ => c
  }

  /** Cleaning twice is cleaning once (app.py). */
  lemma CleanCellAppIdempotent(c: Cell)
    ensures CleanCellApp(CleanCellApp(c)) == CleanCellApp(c)
  {
    var r := CleanCellApp(c);
    if r.Text? {
      StripTrimmed(r.text);
    }
  }

  /** Cleaning twice is cleaning once (main.py). */
  lemma CleanCellMainIdempotent(c: Cell)
    ensures CleanCellMain(CleanCellMain(c)) == CleanCellMain(c)
  {
    var r := CleanCellMain(c);
    if r.Text? {
      StripTrimmed(r.text);
    }
  }

  lemma RemoveCarriageReturnsExample(s: string)
    requires s == "  x\r\n"
    ensures RemoveCarriageReturns(s) == "  x\n"
  {
    assert s[1..] == " x\r\n" && s[2..] == "x\r\n" && s[3..] == "\r\n" && s[4..] == "\n";
    assert RemoveCarriageReturns("\n") == "\n";
    assert RemoveCarriageReturns("\r\n") == "\n";
    assert RemoveCarriageReturns("x\r\n") == "x\n";
    assert RemoveCarriageReturns(" x\r\n") == " x\n";
  }

  /** A leading whitespace character is dropped, and stripping goes on. */
  lemma StripLeftSkips(c: char, t: string)
    requires IsSpace(c)
    ensures StripLeft([c] + t) == StripLeft(t)
  {
    assert ([c] + t)[1..] == t;
  }

  /** A trailing whitespace character is dropped, and stripping goes on. */
  lemma StripRightSkips(t: string, c: char)
    requires IsSpace(c)
    ensures StripRight(t + [c]) == StripRight(t)
  {
    assert (t + [c])[..|t|] == t;
  }

  lemma StripExample(s: string)
    requires s == "  x\n"
    ensures Strip(s) == "x"
  {
    var x := "x";
    assert !IsSpace('x');
    assert s == [' '] + ([' '] + (x + ['\n']));
    StripLeftSkips(' ', [' '] + (x + ['\n']));
    StripLeftSkips(' ', x + ['\n']);
    assert StripLeft(x + ['\n']) == x + ['\n'];
    StripRightSkips(x, '\n');
    assert StripRight(x) == x;
  }

  /** "  x\r\n" cleans to "x" in app.py. */
  lemma CleanCellAppExample()
    ensures CleanCellApp(Text("  x\r\n")) == Text("x")
  {
    RemoveCarriageReturnsExample("  x\r\n");
    StripExample("  x\n");
  }

  /** main.py keeps a carriage return that sits inside the text. */
  lemma InteriorCarriageReturnKept(s: string)
    requires s == "a\rb"
    ensures CleanCellMain(Text(s)) == Text(s)
  {
    assert !IsSpace(s[0]) && !IsSpace(s[|s| - 1]);
    StripTrimmed(s);
  }

  /** app.py drops a carriage return that sits inside the text. */
  lemma InteriorCarriageReturnDropped()
    ensures CleanCellApp(Text("a\rb")) == Text("ab")
  {
    var t := RemoveCarriageReturns("a\rb");
    assert t == "ab" by {
      assert RemoveCarriageReturns("b") == "b";
      assert RemoveCarriageReturns("\rb") == "b";
    }
    StripTrimmed("ab");
  }
}
