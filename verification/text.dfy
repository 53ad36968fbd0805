/**
 * The handful of Python `str` operations the screening agent relies on, on
 * `seq<char>`: ASCII `lower()`, the `in` substring test, `endswith`, `split`
 * on one character, `strip()`, the `\d+` digit run and `int()` on digits.
 * Case folding and digits are ASCII only.
 */
module Text {
  import opened Results

  /* ---------- case folding ---------- */

  /** ASCII case folding of one character; every other character is left alone. */
  function LowerChar(c: char): (d: char)
    ensures 'A' <= c <= 'Z' ==> d as int == c as int + 32
    ensures !('A' <= c <= 'Z') ==> d == c
  {
    if 'A' <= c <= 'Z' then (c as int + 32) as char else c
  }

  /** `s.lower()`, restricted to ASCII letters. */
  function Lower(s: string): (r: string)
    ensures |r| == |s|
    ensures forall i :: 0 <= i < |s| ==> r[i] == LowerChar(s[i])
  {
    seq(|s|, i requires 0 <= i < |s| => LowerChar(s[i]))
  }

  lemma LowerAppend(a: string, b: string)
    ensures Lower(a + b) == Lower(a) + Lower(b)
  {
  }

  /* ---------- substrings ---------- */

  predicate StartsWith(s: string, p: string) {
    |p| <= |s| && s[..|p|] == p
  }

  /** `p in s` for strings. */
  predicate Contains(s: string, p: string) {
    exists i :: 0 <= i <= |s| - |p| && StartsWith(s[i..], p)
  }

  lemma ContainsMiddle(a: string, p: string, b: string)
    ensures Contains(a + p + b, p)
  {
    assert (a + p + b)[|a|..][..|p|] == p;
  }

  /** `s.endswith(p)`. */
  predicate EndsWith(s: string, p: string) {
    |p| <= |s| && s[|s| - |p|..] == p
  }

  /* ---------- split and join on one separator ---------- */

  /**
   * `s.split(sep)` for a one-character separator: the pieces between
   * separators, including empty ones, and never an empty list.
   */
  function Split(s: string, sep: char): (parts: seq<string>)
    ensures |parts| >= 1
    ensures forall i :: 0 <= i < |parts| ==> sep !in parts[i]
    ensures sep in s <==> |parts| >= 2
    decreases |s|
  {
    if s == [] then [[]]
    else
      var rest := Split(s[1..], sep);
      if s[0] == sep then [[]] + rest
      else [[s[0]] + rest[0]] + rest[1..]
  }

  /** `sep.join(parts)`. */
  function Join(parts: seq<string>, sep: char): string
    requires |parts| >= 1
    decreases |parts|
  {
    if |parts| == 1 then parts[0] else parts[0] + [sep] + Join(parts[1..], sep)
  }

  /** Joining the pieces of a split gives back the original string. */
  lemma {:induction false} JoinSplit(s: string, sep: char)
    ensures Join(Split(s, sep), sep) == s
    decreases |s|
  {
    if s != [] {
      var rest := Split(s[1..], sep);
      JoinSplit(s[1..], sep);
      if s[0] == sep {
        assert Split(s, sep)[1..] == rest;
      } else if |rest| == 1 {
        assert Split(s, sep) == [[s[0]] + rest[0]];
        assert s == [s[0]] + s[1..];
      } else {
        assert Split(s, sep)[1..] == rest[1..];
        assert Join(rest, sep) == rest[0] + [sep] + Join(rest[1..], sep);
        assert s == [s[0]] + s[1..];
      }
    }
  }

  /** A piece that holds no separator is split off unchanged at the front. */
  lemma {:induction false} SplitPrefix(a: string, sep: char, b: string)
    requires sep !in a
    ensures Split(a + [sep] + b, sep) == [a] + Split(b, sep)
    decreases |a|
  {
    if a == [] {
      assert a + [sep] + b == [sep] + b;
      assert ([sep] + b)[1..] == b;
    } else {
      SplitPrefix(a[1..], sep, b);
      assert (a + [sep] + b)[1..] == a[1..] + [sep] + b;
      assert [a[0]] + a[1..] == a;
    }
  }

  /** A string without the separator is one piece. */
  lemma SplitWhole(a: string, sep: char)
    requires sep !in a
    ensures Split(a, sep) == [a]
  {
    var parts := Split(a, sep);
    JoinSplit(a, sep);
    assert |parts| == 1;
  }

  /** Splitting a join of separator-free pieces gives back the pieces. */
  lemma {:induction false} SplitJoin(parts: seq<string>, sep: char)
    requires |parts| >= 1
    requires forall i :: 0 <= i < |parts| ==> sep !in parts[i]
    ensures Split(Join(parts, sep), sep) == parts
    decreases |parts|
  {
    if |parts| == 1 {
      SplitWhole(parts[0], sep);
    } else {
      SplitJoin(parts[1..], sep);
      SplitPrefix(parts[0], sep, Join(parts[1..], sep));
      assert parts == [parts[0]] + parts[1..];
    }
  }

  /** Every piece of a split is a slice of the original string. */
  lemma {:induction false} SplitPieceIsSlice(s: string, sep: char, m: int) returns (lo: int)
    requires 0 <= m < |Split(s, sep)|
    ensures 0 <= lo <= lo + |Split(s, sep)[m]| <= |s|
    ensures s[lo..lo + |Split(s, sep)[m]|] == Split(s, sep)[m]
    decreases |s|
  {
    var parts := Split(s, sep);
    if m == 0 {
      PieceZeroIsPrefix(s, sep);
      lo := 0;
    } else {
      var rest := Split(s[1..], sep);
      // a piece after the first is a piece of the split of `s[1..]`
      var m' := if s[0] == sep then m - 1 else m;
      assert parts[m] == rest[m'];
      var l := SplitPieceIsSlice(s[1..], sep, m');
      lo := l + 1;
      var n := |parts[m]|;
      var here, there := s[lo..lo + n], s[1..][l..l + n];
      assert forall k :: 0 <= k < n ==> here[k] == there[k];
      assert here == there;
    }
  }

  /** The first piece of a split is a prefix of the string. */
  lemma {:induction false} PieceZeroIsPrefix(s: string, sep: char)
    ensures |Split(s, sep)[0]| <= |s| && s[..|Split(s, sep)[0]|] == Split(s, sep)[0]
    decreases |s|
  {
    if s != [] && s[0] != sep {
      PieceZeroIsPrefix(s[1..], sep);
    }
  }

  /** A substring of a slice is a substring of the whole, also after lower-casing. */
  lemma ContainsInSlice(s: string, lo: int, t: string)
    requires 0 <= lo <= lo + |t| <= |s| && s[lo..lo + |t|] == t
    ensures Contains(Lower(t), "score") ==> Contains(Lower(s), "score")
  {
    if Contains(Lower(t), "score") {
      var i :| 0 <= i <= |Lower(t)| - 5 && StartsWith(Lower(t)[i..], "score");
      assert forall k :: 0 <= k < |t| ==> s[lo + k] == t[k];
      assert forall k :: 0 <= k < 5 ==> Lower(s)[lo + i..][k] == Lower(t)[i..][k];
      assert Lower(s)[lo + i..][..5] == Lower(t)[i..][..5];
    }
  }

  /* ---------- whitespace ---------- */

  /** The ASCII characters Python's `str.isspace` accepts. */
  predicate IsSpace(c: char) {
    c == ' ' || 9 <= c as int <= 13 || 28 <= c as int <= 31
  }

  function StripStart(s: string): (r: string)
    ensures |r| <= |s| && r == s[|s| - |r|..]
    ensures forall k :: 0 <= k < |s| - |r| ==> IsSpace(s[k])
    ensures r == [] || !IsSpace(r[0])
    decreases |s|
  {
    if s != [] && IsSpace(s[0]) then StripStart(s[1..]) else s
  }

  function StripEnd(s: string): (r: string)
    ensures |r| <= |s| && r == s[..|r|]
    ensures forall k :: |r| <= k < |s| ==> IsSpace(s[k])
    ensures r == [] || !IsSpace(r[|r| - 1])
    decreases |s|
  {
    if s != [] && IsSpace(s[|s| - 1]) then StripEnd(s[..|s| - 1]) else s
  }

  /**
   * `s.strip()`: the middle slice `s[lo..lo + |r|]`, with only whitespace
   * cut away on either side and no whitespace left at its ends.
   */
  function Strip(s: string): (r: string)
    ensures StrippedAt(s, r, StripOffset(s))
    ensures r == [] || (!IsSpace(r[0]) && !IsSpace(r[|r| - 1]))
  {
    var t := StripStart(s);
    StripEnd(t)
  }

  /** How many characters `strip()` cuts from the front of `s`. */
  function StripOffset(s: string): nat
  {
    |s| - |StripStart(s)|
  }

  /** `r` is `s[lo..lo + |r|]` and everything outside that slice is whitespace. */
  ghost predicate StrippedAt(s: string, r: string, lo: int) {
    && 0 <= lo <= lo + |r| <= |s|
    && r == s[lo..lo + |r|]
    && (forall k :: 0 <= k < lo ==> IsSpace(s[k]))
    && (forall k :: lo + |r| <= k < |s| ==> IsSpace(s[k]))
  }

  /* ---------- digits ---------- */

  predicate IsDigit(c: char) {
    '0' <= c <= '9'
  }

  predicate AllDigits(s: string) {
    forall k :: 0 <= k < |s| ==> IsDigit(s[k])
  }

  predicate HasDigit(s: string) {
    exists k :: 0 <= k < |s| && IsDigit(s[k])
  }

  /** The longest prefix of `s` made of digits. */
  function LeadingDigits(s: string): (r: string)
    ensures |r| <= |s| && r == s[..|r|]
    ensures AllDigits(r)
    ensures |r| == |s| || !IsDigit(s[|r|])
    decreases |s|
  {
    if s != [] && IsDigit(s[0]) then [s[0]] + LeadingDigits(s[1..]) else []
  }

  /**
   * `s[i..j]` is the first match of the regular expression `\d+` in `s`:
   * a non-empty run of digits, with no digit before it and none right after it.
   */
  ghost predicate IsFirstDigitRun(s: string, i: int, j: int) {
    && 0 <= i < j <= |s|
    && (forall k :: 0 <= k < i ==> !IsDigit(s[k]))
    && (forall k :: i <= k < j ==> IsDigit(s[k]))
    && (j == |s| || !IsDigit(s[j]))
  }

  /** `re.findall(r'\d+', s)[0]` when there is a match, `None` when there is none. */
  function FirstDigitRun(s: string): (r: Option<string>)
    ensures r.None? <==> !HasDigit(s)
    ensures r.Some? ==> |r.value| >= 1 && AllDigits(r.value)
    decreases |s|
  {
    if s == [] then None
    else if IsDigit(s[0]) then Some(LeadingDigits(s))
    else
      var r := FirstDigitRun(s[1..]);
      assert HasDigit(s[1..]) <==> HasDigit(s) by {
        if HasDigit(s) {
          var k :| 0 <= k < |s| && IsDigit(s[k]);
          assert s[1..][k - 1] == s[k];
        }
      }
      r
  }

  /** The first `\d+` match is the one `FirstDigitRun` returns. */
  lemma {:induction false} FirstDigitRunIsFirstMatch(s: string, i: int, j: int)
    requires IsFirstDigitRun(s, i, j)
    ensures FirstDigitRun(s) == Some(s[i..j])
    decreases |s|
  {
    if i == 0 {
      var d := LeadingDigits(s);
      assert |d| == j;
    } else {
      assert !IsDigit(s[0]);
      assert IsFirstDigitRun(s[1..], i - 1, j - 1);
      FirstDigitRunIsFirstMatch(s[1..], i - 1, j - 1);
      assert s[1..][i - 1..j - 1] == s[i..j];
    }
  }

  /** Every string that holds a digit has exactly one first `\d+` match. */
  lemma FirstDigitRunExists(s: string) returns (i: int, j: int)
    requires HasDigit(s)
    ensures IsFirstDigitRun(s, i, j)
  {
    var k :| 0 <= k < |s| && IsDigit(s[k]);
    i := 0;
    while !IsDigit(s[i])
      invariant 0 <= i <= k
      invariant forall m :: 0 <= m < i ==> !IsDigit(s[m])
      decreases k - i
    {
      i := i + 1;
    }
    var d := LeadingDigits(s[i..]);
    j := i + |d|;
    assert forall m :: i <= m < j ==> s[m] == d[m - i];
    if j < |s| {
      assert s[j] == s[i..][|d|];
    }
  }

  /** The first digit run of a slice with only whitespace around it is the first digit run of the whole. */
  lemma SliceFirstDigitRun(s: string, r: string, lo: int, i: int, j: int)
    requires StrippedAt(s, r, lo)
    requires IsFirstDigitRun(r, i, j)
    ensures IsFirstDigitRun(s, lo + i, lo + j)
    ensures s[lo + i..lo + j] == r[i..j]
  {
    forall m | 0 <= m < lo + i ensures !IsDigit(s[m]) {
      if m >= lo {
        assert s[m] == r[m - lo];
      }
    }
    forall m | lo + i <= m < lo + j ensures IsDigit(s[m]) {
      assert s[m] == r[m - lo];
    }
    if j < |r| {
      assert s[lo + j] == r[j];
    }
    assert r == s[lo..lo + |r|];
    forall m | 0 <= m < j - i ensures r[i..j][m] == s[lo + i..lo + j][m] {
      assert r[i + m] == s[lo + i + m];
    }
  }

  /** A slice with only whitespace around it and no digit leaves no digit in the whole. */
  lemma SliceNoDigit(s: string, r: string, lo: int)
    requires StrippedAt(s, r, lo)
    requires !HasDigit(r)
    ensures !HasDigit(s)
  {
    forall k | 0 <= k < |s| ensures !IsDigit(s[k]) {
      if lo <= k < lo + |r| {
        assert s[k] == r[k - lo];
      }
    }
  }

  /** A slice with only whitespace around it has the same first digit run as the whole. */
  lemma SliceKeepsFirstDigitRun(s: string, r: string, lo: int)
    requires StrippedAt(s, r, lo)
    ensures FirstDigitRun(r) == FirstDigitRun(s)
  {
    if HasDigit(r) {
      var i, j := FirstDigitRunExists(r);
      SliceFirstDigitRun(s, r, lo, i, j);
      FirstDigitRunIsFirstMatch(r, i, j);
      FirstDigitRunIsFirstMatch(s, lo + i, lo + j);
    } else {
      SliceNoDigit(s, r, lo);
    }
  }

  /** Cutting whitespace off both ends leaves the first digit run unchanged. */
  lemma StripKeepsFirstDigitRun(s: string)
    ensures FirstDigitRun(Strip(s)) == FirstDigitRun(s)
  {
    SliceKeepsFirstDigitRun(s, Strip(s), StripOffset(s));
  }

  /* ---------- decimal numbers ---------- */

  function DigitValue(c: char): (n: nat)
    requires IsDigit(c)
    ensures n < 10
  {
    c as int - '0' as int
  }

  function DigitChar(n: nat): (c: char)
    requires n < 10
    ensures IsDigit(c) && DigitValue(c) == n
  {
    ('0' as int + n) as char
  }

  /** `int(ds)` for a string of decimal digits (leading zeros allowed). */
  function DecimalValue(ds: string): nat
    requires AllDigits(ds)
    decreases |ds|
  {
    if ds == [] then 0
    else DecimalValue(ds[..|ds| - 1]) * 10 + DigitValue(ds[|ds| - 1])
  }

  /** `str(n)`: the decimal digits of `n` without leading zeros. */
  function DecimalString(n: nat): (ds: string)
    ensures |ds| >= 1 && AllDigits(ds)
    ensures ds[0] != '0' || n == 0
    decreases n
  {
    if n < 10 then [DigitChar(n)] else DecimalString(n / 10) + [DigitChar(n % 10)]
  }

  /** `int(str(n)) == n`. */
  lemma {:induction false} DecimalRoundTrip(n: nat)
    ensures DecimalValue(DecimalString(n)) == n
    decreases n
  {
    if n >= 10 {
      DecimalRoundTrip(n / 10);
      var ds := DecimalString(n);
      assert ds[..|ds| - 1] == DecimalString(n / 10);
    }
  }
}
