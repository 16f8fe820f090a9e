/**
 * The .NET string and character primitives the program relies on: white-space tests and trimming,
 * splitting and joining on a separator, ordinal case-insensitive comparison, the seven-digit phone
 * pattern and the decimal rendering of integers.
 */
module Text {

  /** char.IsWhiteSpace: the Unicode space separators, the line and paragraph separators and the
      control characters U+0009..U+000D and U+0085. */
  predicate IsWhiteSpace(c: char) {
    var n := c as int;
    (9 <= n <= 13) || n == 0x20 || n == 0x85 || n == 0xA0 || n == 0x1680
    || (0x2000 <= n <= 0x200A) || n == 0x2028 || n == 0x2029 || n == 0x202F
    || n == 0x205F || n == 0x3000
  }

  /** string.IsNullOrWhiteSpace (a null string is modelled as the empty one). */
  predicate IsBlank(s: string) {
    forall i | 0 <= i < |s| :: IsWhiteSpace(s[i])
  }

  /** Neither the first nor the last character is white space. */
  predicate NoSurroundingSpace(s: string) {
    s == [] || (!IsWhiteSpace(s[0]) && !IsWhiteSpace(s[|s| - 1]))
  }

  /** Drops the leading characters that `drop` selects. */
  function TrimStartWhere(s: string, drop: char -> bool): (r: string)
    ensures |r| <= |s| && r == s[|s| - |r|..]
    ensures r == [] || !drop(r[0])
    ensures forall i | 0 <= i < |s| - |r| :: drop(s[i])
  {
    if s != [] && drop(s[0]) then TrimStartWhere(s[1..], drop) else s
  }

  /** Drops the trailing characters that `drop` selects. */
  function TrimEndWhere(s: string, drop: char -> bool): (r: string)
    ensures |r| <= |s| && r == s[..|r|]
    ensures r == [] || !drop(r[|r| - 1])
    ensures forall i | |r| <= i < |s| :: drop(s[i])
  {
    if s != [] && drop(s[|s| - 1]) then TrimEndWhere(s[..|s| - 1], drop) else s
  }

  /**
   * string.Trim(): what is left is the middle of `s`, between a blank prefix and a blank suffix,
   * and neither starts nor ends with white space.
   */
  function Trim(s: string): (r: string)
    ensures NoSurroundingSpace(r)
    ensures forall c | c in r :: c in s
    ensures exists a, b | 0 <= a <= b <= |s| :: r == s[a..b] && IsBlank(s[..a]) && IsBlank(s[b..])
  {
    var t := TrimStartWhere(s, IsWhiteSpace);
    var r := TrimEndWhere(t, IsWhiteSpace);
    TrimmedMiddle(s, t, r);
    r
  }

  /** The two trimming passes keep a middle piece of `s` and drop only white space around it. */
  lemma TrimmedMiddle(s: string, t: string, r: string)
    requires |t| <= |s| && t == s[|s| - |t|..] && forall i | 0 <= i < |s| - |t| :: IsWhiteSpace(s[i])
    requires |r| <= |t| && r == t[..|r|] && forall i | |r| <= i < |t| :: IsWhiteSpace(t[i])
    ensures forall c | c in r :: c in s
    ensures exists a, b | 0 <= a <= b <= |s| :: r == s[a..b] && IsBlank(s[..a]) && IsBlank(s[b..])
  {
    var a, b := TrimmedBounds(s, IsWhiteSpace, t, r);
    BlankSlices(s, a, b);
  }

  lemma BlankSlices(s: string, a: nat, b: nat)
    requires a <= b <= |s|
    requires forall i | 0 <= i < a :: IsWhiteSpace(s[i])
    requires forall i | b <= i < |s| :: IsWhiteSpace(s[i])
    ensures IsBlank(s[..a]) && IsBlank(s[b..])
  {
    forall i | 0 <= i < a
      ensures IsWhiteSpace(s[..a][i])
    {
      assert s[..a][i] == s[i];
    }
    forall i | 0 <= i < |s| - b
      ensures IsWhiteSpace(s[b..][i])
    {
      assert s[b..][i] == s[b + i];
    }
  }

  /** Where the kept piece starts and ends: everything before and after it is dropped. */
  lemma TrimmedBounds(s: string, drop: char -> bool, t: string, r: string) returns (a: nat, b: nat)
    requires |t| <= |s| && t == s[|s| - |t|..] && forall i | 0 <= i < |s| - |t| :: drop(s[i])
    requires |r| <= |t| && r == t[..|r|] && forall i | |r| <= i < |t| :: drop(t[i])
    ensures a <= b <= |s| && r == s[a..b]
    ensures forall i | 0 <= i < a :: drop(s[i])
    ensures forall i | b <= i < |s| :: drop(s[i])
  {
    a, b := |s| - |t|, |s| - |t| + |r|;
    forall i | b <= i < |s|
      ensures drop(s[i])
    {
      assert s[i] == t[i - a];
    }
  }

  lemma TrimKeeps(s: string)
    requires NoSurroundingSpace(s)
    ensures Trim(s) == s
  {
  }

  /** string.Join(sep, fields). */
  function Join(fields: seq<string>, sep: char): string {
    if |fields| == 0 then ""
    else if |fields| == 1 then fields[0]
    else fields[0] + [sep] + Join(fields[1..], sep)
  }

  /** string.Split(sep): the pieces between separators; joining them back gives `s`. */
  function Split(s: string, sep: char): (r: seq<string>)
    ensures |r| >= 1
    ensures forall i | 0 <= i < |r| :: sep !in r[i]
    ensures Join(r, sep) == s
  {
    if s == [] then [""]
    else
      var rest := Split(s[1..], sep);
      if s[0] == sep then
        assert ([""] + rest)[1..] == rest;
        [""] + rest
      else
        var r := [[s[0]] + rest[0]] + rest[1..];
        assert r[1..] == rest[1..];
        assert s == [s[0]] + s[1..];
        r
  }

  lemma {:induction false} SplitPrefix(a: string, rest: string, sep: char)
    requires sep !in a
    ensures Split(a + rest, sep) == [a + Split(rest, sep)[0]] + Split(rest, sep)[1..]
  {
    if a == [] {
      var sr := Split(rest, sep);
      assert a + rest == rest && a + sr[0] == sr[0];
      assert sr == [sr[0]] + sr[1..];
    } else {
      var x := a[1..] + rest;
      assert a + rest == [a[0]] + x;
      assert (a + rest)[0] == a[0] && (a + rest)[1..] == x;
      SplitPrefix(a[1..], rest, sep);
      var sx := Split(x, sep);
      assert Split(a + rest, sep) == [[a[0]] + sx[0]] + sx[1..];
      assert [a[0]] + (a[1..] + Split(rest, sep)[0]) == a + Split(rest, sep)[0];
    }
  }

  /** Splitting a join of separator-free fields gives the fields back. */
  lemma {:induction false} SplitJoin(fields: seq<string>, sep: char)
    requires |fields| >= 1
    requires forall i | 0 <= i < |fields| :: sep !in fields[i]
    ensures Split(Join(fields, sep), sep) == fields
  {
    if |fields| == 1 {
      SplitPrefix(fields[0], "", sep);
      assert fields[0] + "" == fields[0];
    } else {
      var tail := Join(fields[1..], sep);
      SplitJoin(fields[1..], sep);
      assert Split([sep] + tail, sep) == [""] + fields[1..] by {
        assert ([sep] + tail)[1..] == tail;
      }
      assert Join(fields, sep) == fields[0] + ([sep] + tail);
      SplitPrefix(fields[0], [sep] + tail, sep);
      assert fields[0] + "" == fields[0];
      assert fields == [fields[0]] + fields[1..];
    }
  }

  /** Every character of a field appears in the joined text. */
  lemma {:induction false} JoinContains(fields: seq<string>, sep: char, i: nat, c: char)
    requires i < |fields| && c in fields[i]
    ensures c in Join(fields, sep)
  {
    if |fields| > 1 {
      if i > 0 {
        JoinContains(fields[1..], sep, i - 1, c);
      }
      assert Join(fields, sep) == fields[0] + [sep] + Join(fields[1..], sep);
    }
  }

  /** The upper-casing that OrdinalIgnoreCase applies to each character (ASCII letters). */
  function ToUpperAscii(c: char): char {
    if 'a' <= c <= 'z' then (c as int - 32) as char else c
  }

  function FoldCase(s: string): (r: string)
    ensures |r| == |s|
  {
    seq(|s|, i requires 0 <= i < |s| => ToUpperAscii(s[i]))
  }

  /** string.Equals(a, b, StringComparison.OrdinalIgnoreCase). */
  predicate EqualsIgnoreCase(a: string, b: string) {
    FoldCase(a) == FoldCase(b)
  }

  /** Ordinal comparison: the first differing character decides, a proper prefix comes first. */
  function LexCompare(a: string, b: string): (r: int)
    ensures -1 <= r <= 1
    ensures r == 0 <==> a == b
  {
    if a == [] then (if b == [] then 0 else -1)
    else if b == [] then 1
    else if a[0] < b[0] then -1
    else if a[0] > b[0] then 1
    else
      assert a == [a[0]] + a[1..] && b == [b[0]] + b[1..];
      LexCompare(a[1..], b[1..])
  }

  lemma {:induction false} LexCompareAntisymmetric(a: string, b: string)
    ensures LexCompare(a, b) == -LexCompare(b, a)
  {
    if a != [] && b != [] && a[0] == b[0] {
      LexCompareAntisymmetric(a[1..], b[1..]);
    }
  }

  lemma {:induction false} LexCompareTransitive(a: string, b: string, c: string)
    requires LexCompare(a, b) <= 0 && LexCompare(b, c) <= 0
    ensures LexCompare(a, c) <= 0
  {
    if a != [] && b != [] && c != [] && a[0] == b[0] && b[0] == c[0] {
      LexCompareTransitive(a[1..], b[1..], c[1..]);
    }
  }

  /** string.Compare(a, b, StringComparison.OrdinalIgnoreCase), as its sign: zero for equal texts. */
  function CompareIgnoreCase(a: string, b: string): (r: int)
    ensures -1 <= r <= 1
    ensures r == 0 <==> EqualsIgnoreCase(a, b)
  {
    LexCompare(FoldCase(a), FoldCase(b))
  }

  predicate IsDigit(c: char) {
    '0' <= c <= '9'
  }

  predicate AllDigits(s: string) {
    forall i | 0 <= i < |s| :: IsDigit(s[i])
  }

  /** Regex.IsMatch(s, @"^\d{7}$"): seven digits; `$` also matches just before a final line feed. */
  predicate MatchesSevenDigits(s: string)
    ensures MatchesSevenDigits(s) <==> exists d | |d| == 7 && AllDigits(d) :: s == d || s == d + "\n"
  {
    assert |s| == 8 && s[7] == '\n' ==> s == s[..7] + "\n";
    (|s| == 7 && AllDigits(s)) || (|s| == 8 && AllDigits(s[..7]) && s[7] == '\n')
  }

  /** A console line holds no line feed, so on it the pattern means "exactly seven digits". */
  lemma SevenDigitsOnLine(s: string)
    requires '\n' !in s
    ensures MatchesSevenDigits(s) <==> |s| == 7 && AllDigits(s)
  {
  }

  function DigitChar(d: nat): (c: char)
    requires d < 10
    ensures IsDigit(c)
  {
    ('0' as int + d) as char
  }

  /** Decimal digits of a natural number, most significant first. */
  function NatToString(n: nat): (r: string)
    ensures |r| >= 1 && AllDigits(r)
  {
    if n < 10 then [DigitChar(n)] else NatToString(n / 10) + [DigitChar(n % 10)]
  }

  /** int.ToString(): an optional minus sign and the decimal digits. */
  function IntToString(i: int): (r: string)
    ensures |r| >= 1
    ensures forall k | 0 <= k < |r| :: IsDigit(r[k]) || r[k] == '-'
  {
    if i < 0 then "-" + NatToString(-i) else NatToString(i)
  }
}
