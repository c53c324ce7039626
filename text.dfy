/**
 * The string operations the generator relies on: replacing every literal
 * occurrence of a placeholder (JavaScript's `replace` with a global regular
 * expression built from an escaped name) and writing a row number in decimal.
 */
module Text {

  ghost predicate OccursAt(s: string, pat: string, i: nat) {
    i + |pat| <= |s| && s[i..i + |pat|] == pat
  }

  ghost predicate Occurs(s: string, pat: string) {
    exists i: nat :: OccursAt(s, pat, i)
  }

  /**
   * Scans `s` left to right; each occurrence of `pat` found is replaced by `v`
   * and the scan resumes after it, so replacements are never rescanned.
   */
  function ReplaceAll(s: string, pat: string, v: string): string
    requires pat != []
    decreases |s|
  {
    if |s| < |pat| then s
    else if s[..|pat|] == pat then v + ReplaceAll(s[|pat|..], pat, v)
    else [s[0]] + ReplaceAll(s[1..], pat, v)
  }

  /** A text in which the pattern does not occur is left unchanged. */
  lemma {:induction false} ReplaceAllAbsent(s: string, pat: string, v: string)
    requires pat != []
    requires !Occurs(s, pat)
    ensures ReplaceAll(s, pat, v) == s
  {
    if |s| >= |pat| {
      assert !OccursAt(s, pat, 0);
      forall i: nat
        ensures !OccursAt(s[1..], pat, i)
      {
        if i + |pat| <= |s| - 1 {
          assert s[1..][i..i + |pat|] == s[i + 1..i + 1 + |pat|];
          assert !OccursAt(s, pat, i + 1);
        }
      }
      ReplaceAllAbsent(s[1..], pat, v);
    }
  }

  /** A placeholder at the front of the text is replaced and the scan goes on after it. */
  lemma ReplaceAllPlaceholder(rest: string, pat: string, v: string)
    requires pat != []
    ensures ReplaceAll(pat + rest, pat, v) == v + ReplaceAll(rest, pat, v)
  {
    assert (pat + rest)[..|pat|] == pat;
    assert (pat + rest)[|pat|..] == rest;
  }

  /** A text in which the pattern does not start at the front keeps its first character and is scanned on from the second. */
  lemma ReplaceAllFront(s: string, pat: string, v: string)
    requires pat != [] && s != [] && !OccursAt(s, pat, 0)
    ensures ReplaceAll(s, pat, v) == [s[0]] + ReplaceAll(s[1..], pat, v)
  {
    if |s| < |pat| {
      assert ReplaceAll(s[1..], pat, v) == s[1..];
      assert s == [s[0]] + s[1..];
    } else {
      assert s[0..|pat|] == s[..|pat|];
    }
  }

  /**
   * When no occurrence of the pattern starts inside `x`, the scan copies `x`
   * and carries on with `y`.
   */
  lemma {:induction false} ReplaceAllNoStart(x: string, y: string, pat: string, v: string)
    requires pat != []
    requires forall i: nat :: i < |x| ==> !OccursAt(x + y, pat, i)
    ensures ReplaceAll(x + y, pat, v) == x + ReplaceAll(y, pat, v)
  {
    if x == [] {
      assert x + y == y;
    } else {
      var s := x + y;
      assert !OccursAt(s, pat, 0);
      ReplaceAllFront(s, pat, v);
      assert s[1..] == x[1..] + y;
      forall i: nat | i < |x| - 1
        ensures !OccursAt(x[1..] + y, pat, i)
      {
        assert !OccursAt(s, pat, i + 1);
        if i + |pat| <= |s| - 1 {
          assert s[1..][i..i + |pat|] == s[i + 1..i + 1 + |pat|];
        }
      }
      ReplaceAllNoStart(x[1..], y, pat, v);
      assert [x[0]] + (x[1..] + ReplaceAll(y, pat, v)) == ([x[0]] + x[1..]) + ReplaceAll(y, pat, v);
      assert [x[0]] + x[1..] == x;
    }
  }

  /**
   * Literal text holding no '<' passes through unchanged when the pattern is a
   * placeholder, which always starts with '<'.
   */
  lemma ReplaceAllLiteral(a: string, rest: string, pat: string, v: string)
    requires pat != [] && pat[0] == '<'
    requires '<' !in a
    ensures ReplaceAll(a + rest, pat, v) == a + ReplaceAll(rest, pat, v)
  {
    forall i: nat | i < |a|
      ensures !OccursAt(a + rest, pat, i)
    {
      assert a[i] in a;
      if i + |pat| <= |a + rest| {
        assert (a + rest)[i..i + |pat|][0] == a[i] != pat[0];
      }
    }
    ReplaceAllNoStart(a, rest, pat, v);
  }

  /**
   * Text in which a placeholder does not occur, followed by that placeholder,
   * is copied, the placeholder replaced, and the scan goes on after it. The
   * placeholder starts with its only '<', so no occurrence can begin in the
   * text and run into the placeholder.
   */
  lemma ReplaceAllSkip(a: string, rest: string, pat: string, v: string)
    requires pat != [] && pat[0] == '<' && '<' !in pat[1..]
    requires !Occurs(a, pat)
    ensures ReplaceAll(a + pat + rest, pat, v) == a + v + ReplaceAll(rest, pat, v)
  {
    var s := a + (pat + rest);
    forall i: nat | i < |a|
      ensures !OccursAt(s, pat, i)
    {
      if i + |pat| <= |a| {
        assert s[i..i + |pat|] == a[i..i + |pat|];
        assert !OccursAt(a, pat, i);
      } else {
        var j := |a| - i;
        assert pat[j] == pat[1..][j - 1] != '<';
        assert s[i..i + |pat|][j] == s[|a|] == '<';
      }
    }
    ReplaceAllNoStart(a, pat + rest, pat, v);
    ReplaceAllPlaceholder(rest, pat, v);
    assert a + pat + rest == s;
  }

  /** A text that does not hold the pattern's first character does not hold the pattern. */
  lemma FirstCharAbsent(s: string, pat: string)
    requires pat != [] && pat[0] !in s
    ensures !Occurs(s, pat)
  {
    forall i: nat | i + |pat| <= |s|
      ensures !OccursAt(s, pat, i)
    {
      assert s[i] in s;
      assert s[i..i + |pat|][0] == s[i];
    }
  }

  /** The pieces of `pieces` with `sep` between each two neighbours. */
  function Join(pieces: seq<string>, sep: string): string
    decreases |pieces|
  {
    if |pieces| == 0 then ""
    else if |pieces| == 1 then pieces[0]
    else pieces[0] + sep + Join(pieces[1..], sep)
  }

  /**
   * A template made of pieces separated by a placeholder becomes the same
   * pieces separated by the value, provided the placeholder does not occur
   * inside any piece. The pieces may hold '<' and other placeholders.
   */
  lemma {:induction false} ReplaceAllJoin(pieces: seq<string>, pat: string, v: string)
    requires pat != [] && pat[0] == '<' && '<' !in pat[1..]
    requires forall k :: 0 <= k < |pieces| ==> !Occurs(pieces[k], pat)
    ensures ReplaceAll(Join(pieces, pat), pat, v) == Join(pieces, v)
  {
    if |pieces| == 1 {
      ReplaceAllAbsent(pieces[0], pat, v);
    } else if |pieces| > 1 {
      var rest := Join(pieces[1..], pat);
      assert Join(pieces, pat) == pieces[0] + pat + rest;
      ReplaceAllSkip(pieces[0], rest, pat, v);
      ReplaceAllJoin(pieces[1..], pat, v);
      assert Join(pieces, v) == pieces[0] + v + Join(pieces[1..], v);
    }
  }

  /** `pat` is '<', then characters other than '<' and '>', then '>'. */
  predicate IsTag(pat: string) {
    && |pat| >= 2
    && pat[0] == '<'
    && pat[|pat| - 1] == '>'
    && forall k :: 0 < k < |pat| - 1 ==> pat[k] != '<' && pat[k] != '>'
  }

  /** Every '>' of `s` has a '<' somewhere before it. */
  predicate CloseOpened(s: string) {
    forall j :: 0 <= j < |s| && s[j] == '>' ==> exists k :: 0 <= k < j && s[k] == '<'
  }

  lemma OpenedByFirst(s: string)
    requires s != [] && s[0] == '<'
    ensures CloseOpened(s)
  {
  }

  lemma CloseOpenedAfter(x: string, y: string)
    requires '>' !in x && CloseOpened(y)
    ensures CloseOpened(x + y)
  {
    var s := x + y;
    forall j | 0 <= j < |x|
      ensures s[j] != '>'
    {
      assert x[j] in x;
    }
    forall j | |x| <= j < |s| && s[j] == '>'
      ensures exists k :: 0 <= k < j && s[k] == '<'
    {
      assert y[j - |x|] == '>';
      var k :| 0 <= k < j - |x| && y[k] == '<';
      assert s[|x| + k] == '<';
    }
  }

  /**
   * No occurrence of a tag starts in text without '>' when what follows closes
   * no '>' before opening a '<': the tag's '>' would have to come after a '<'
   * inside the tag.
   */
  lemma NoTagStartsIn(x: string, y: string, pat: string)
    requires IsTag(pat) && '>' !in x && CloseOpened(y)
    ensures forall i: nat :: i < |x| ==> !OccursAt(x + y, pat, i)
  {
    var s := x + y;
    forall i: nat | i < |x|
      ensures !OccursAt(s, pat, i)
    {
      var e := i + |pat| - 1;
      if e < |s| {
        if e < |x| {
          assert x[e] in x;
          assert s[i..i + |pat|][|pat| - 1] == x[e] != '>';
        } else if y[e - |x|] != '>' {
          assert s[i..i + |pat|][|pat| - 1] == y[e - |x|];
        } else {
          var k :| 0 <= k < e - |x| && y[k] == '<';
          assert s[i..i + |pat|][|x| + k - i] == y[k] == '<';
        }
      }
    }
  }

  /** A tag starts nowhere inside a different tag. */
  lemma DistinctTagNoStart(q: string, r: string, pat: string)
    requires IsTag(q) && IsTag(pat) && q != pat
    ensures forall i: nat :: i < |q| ==> !OccursAt(q + r, pat, i)
  {
    var s := q + r;
    forall i: nat | i < |q|
      ensures !OccursAt(s, pat, i)
    {
      if i + |pat| <= |s| {
        var a, b := |pat|, |q|;
        if i > 0 {
          assert s[i..i + a][0] == q[i] != '<';
        } else if a < b {
          assert s[0..a][a - 1] == q[a - 1] != '>';
        } else if a > b {
          assert s[0..a][b - 1] == q[b - 1] == '>';
        } else {
          assert s[0..a] == q;
        }
      }
    }
  }

  /** Text without '>' before a tag is copied and the tag is replaced. */
  lemma ReplaceAllAtTag(a: string, rest: string, pat: string, v: string)
    requires IsTag(pat) && '>' !in a
    ensures ReplaceAll(a + pat + rest, pat, v) == a + v + ReplaceAll(rest, pat, v)
  {
    OpenedByFirst(pat + rest);
    NoTagStartsIn(a, pat + rest, pat);
    ReplaceAllNoStart(a, pat + rest, pat, v);
    ReplaceAllPlaceholder(rest, pat, v);
    assert a + pat + rest == a + (pat + rest);
  }

  /** Text without '>' before text whose every '>' is opened is copied. */
  lemma ReplaceAllPastText(x: string, rest: string, pat: string, v: string)
    requires IsTag(pat) && '>' !in x && CloseOpened(rest)
    ensures ReplaceAll(x + rest, pat, v) == x + ReplaceAll(rest, pat, v)
  {
    NoTagStartsIn(x, rest, pat);
    ReplaceAllNoStart(x, rest, pat, v);
  }

  /** Text without '>' followed by a different tag is copied, that tag included. */
  lemma ReplaceAllPastTag(a: string, q: string, rest: string, pat: string, v: string)
    requires IsTag(pat) && IsTag(q) && q != pat && '>' !in a
    ensures ReplaceAll(a + q + rest, pat, v) == a + q + ReplaceAll(rest, pat, v)
  {
    DistinctTagNoStart(q, rest, pat);
    ReplaceAllNoStart(q, rest, pat, v);
    OpenedByFirst(q + rest);
    NoTagStartsIn(a, q + rest, pat);
    ReplaceAllNoStart(a, q + rest, pat, v);
    assert a + q + rest == a + (q + rest);
  }

  predicate IsDigit(c: char) {
    '0' <= c <= '9'
  }

  function DigitChar(d: nat): (c: char)
    requires d < 10
    ensures IsDigit(c) && c as int - '0' as int == d
  {
    ('0' as int + d) as char
  }

  /** The decimal numeral of `n`, as JavaScript writes a number into a string. */
  function NatToString(n: nat): (r: string)
    ensures r != []
    ensures forall k :: 0 <= k < |r| ==> IsDigit(r[k])
    decreases n
  {
    if n < 10 then [DigitChar(n)] else NatToString(n / 10) + [DigitChar(n % 10)]
  }

  /** The number a string of decimal digits denotes. */
  function DecimalValue(s: string): nat
    requires forall k :: 0 <= k < |s| ==> IsDigit(s[k])
    decreases |s|
  {
    if s == [] then 0 else 10 * DecimalValue(s[..|s| - 1]) + DigitValue(s[|s| - 1])
  }

  function DigitValue(c: char): nat
    requires IsDigit(c)
  {
    c as int - '0' as int
  }

  /** Reading back the numeral gives the number: row numbers are written faithfully. */
  lemma {:induction false} DecimalRoundTrip(n: nat)
    ensures DecimalValue(NatToString(n)) == n
  {
    var r := NatToString(n);
    if n >= 10 {
      DecimalRoundTrip(n / 10);
      assert r[..|r| - 1] == NatToString(n / 10);
    }
  }
}
