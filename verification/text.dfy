/** String helpers standing in for the handful of Python string and regex
    operations the scraper uses: `\d`, `[0-9]`, `int()`, `str()` on a
    non-negative integer, `str.replace(c, '')`, `str.split('=')` and
    `re.search` with a literal pattern.  Python 2's `re` matches `\d` as
    [0-9] unless asked for Unicode, so a digit is one of the ASCII
    characters '0'..'9'. */
module Text {
  import opened Wrappers

  predicate IsDigit(c: char) {
    '0' <= c <= '9'
  }

  predicate AllDigits(s: string) {
    forall i :: 0 <= i < |s| ==> IsDigit(s[i])
  }

  function DigitValue(c: char): nat
    requires IsDigit(c)
  {
    c as int - '0' as int
  }

  function DigitChar(d: nat): char
    requires d < 10
  {
    ('0' as int + d) as char
  }

  // ---------------------------------------------------------------------------
  // Decimal numerals: int() and str()
  // ---------------------------------------------------------------------------

  /** The value `int(s)` gives for a numeral of ASCII digits (leading zeros allowed). */
  function DecimalValue(s: string): (v: nat)
    requires AllDigits(s)
    ensures v < Pow10(|s|)
  {
    if s == [] then 0 else DecimalValue(s[..|s| - 1]) * 10 + DigitValue(s[|s| - 1])
  }

  /** The numeral `str(n)` writes: no leading zero unless n is 0. */
  function NatToString(n: nat): (r: string)
    ensures |r| >= 1 && AllDigits(r)
    ensures r[0] == '0' <==> n == 0
  {
    if n < 10 then [DigitChar(n)] else NatToString(n / 10) + [DigitChar(n % 10)]
  }

  /** `int(str(n)) == n`. */
  lemma {:induction false} DecimalRoundTrip(n: nat)
    ensures DecimalValue(NatToString(n)) == n
  {
    if n >= 10 {
      var s := NatToString(n);
      assert s[..|s| - 1] == NatToString(n / 10);
      DecimalRoundTrip(n / 10);
    }
  }

  /** Distinct numbers have distinct numerals. */
  lemma NatToStringInjective(m: nat, n: nat)
    requires NatToString(m) == NatToString(n)
    ensures m == n
  {
    DecimalRoundTrip(m);
    DecimalRoundTrip(n);
  }

  // ---------------------------------------------------------------------------
  // Substring search: re.search with a literal pattern
  // ---------------------------------------------------------------------------

  /** `pat` occurs in `s` starting at index i. */
  predicate OccursAt(s: string, pat: string, i: int) {
    0 <= i && i + |pat| <= |s| && s[i..i + |pat|] == pat
  }

  /** `re.search(pat, s)` succeeds, scanning left to right. */
  predicate Contains(s: string, pat: string)
    decreases |s|
  {
    |pat| <= |s| && (s[..|pat|] == pat || Contains(s[1..], pat))
  }

  /** The scan finds the pattern exactly when it occurs at some index. */
  lemma {:induction false} ContainsIffOccurs(s: string, pat: string)
    ensures Contains(s, pat) <==> exists i :: OccursAt(s, pat, i)
    decreases |s|
  {
    if |pat| <= |s| && s[..|pat|] != pat {
      ContainsIffOccurs(s[1..], pat);
      if Contains(s[1..], pat) {
        var i :| OccursAt(s[1..], pat, i);
        assert s[i + 1..i + 1 + |pat|] == s[1..][i..i + |pat|];
        assert OccursAt(s, pat, i + 1);
      }
      if exists i :: OccursAt(s, pat, i) {
        var i :| OccursAt(s, pat, i);
        assert i != 0;
        assert s[1..][i - 1..i - 1 + |pat|] == s[i..i + |pat|];
        assert OccursAt(s[1..], pat, i - 1);
      }
    } else if |pat| <= |s| {
      assert OccursAt(s, pat, 0);
    }
  }

  // ---------------------------------------------------------------------------
  // str.replace(c, '') for a single character c
  // ---------------------------------------------------------------------------

  /** `s.replace(c, '')`: every occurrence of c deleted. */
  function RemoveChar(s: string, c: char): (r: string)
    ensures |r| <= |s|
    ensures c !in r
  {
    if s == [] then [] else (if s[0] == c then [] else [s[0]]) + RemoveChar(s[1..], c)
  }

  /** Deletion introduces no character. */
  lemma {:induction false} RemoveCharSubset(s: string, c: char)
    ensures forall x :: x in RemoveChar(s, c) ==> x in s
  {
    if s != [] {
      RemoveCharSubset(s[1..], c);
      assert RemoveChar(s, c) == (if s[0] == c then [] else [s[0]]) + RemoveChar(s[1..], c);
    }
  }

  /** Deletion drops exactly the occurrences of c and keeps every other
      character as often as it occurs. */
  lemma {:induction false} RemoveCharCounts(s: string, c: char)
    ensures |RemoveChar(s, c)| == |s| - Count(s, c)
    ensures forall x :: x != c ==> Count(RemoveChar(s, c), x) == Count(s, x)
  {
    if s != [] {
      assert s == [s[0]] + s[1..];
      RemoveCharCounts(s[1..], c);
      var head := if s[0] == c then [] else [s[0]];
      var rest := RemoveChar(s[1..], c);
      assert multiset(s) == multiset{s[0]} + multiset(s[1..]);
      assert RemoveChar(s, c) == head + rest;
      assert multiset(RemoveChar(s, c)) == multiset(head) + multiset(rest);
      assert |RemoveChar(s, c)| == |head| + |rest|;
      forall x | x != c
        ensures Count(RemoveChar(s, c), x) == Count(s, x)
      {
        assert Count(rest, x) == Count(s[1..], x);
      }
    }
  }

  /** Deleting a character that does not occur changes nothing. */
  lemma {:induction false} RemoveCharNoOccurrence(s: string, c: char)
    requires c !in s
    ensures RemoveChar(s, c) == s
  {
    if s != [] {
      assert s == [s[0]] + s[1..];
      RemoveCharNoOccurrence(s[1..], c);
    }
  }

  /** Deletion works piecewise, so the characters kept stay in their order. */
  lemma {:induction false} RemoveCharConcat(a: string, b: string, c: char)
    ensures RemoveChar(a + b, c) == RemoveChar(a, c) + RemoveChar(b, c)
  {
    if a == [] {
      assert a + b == b;
    } else {
      var head := if a[0] == c then [] else [a[0]];
      assert (a + b)[0] == a[0];
      assert (a + b)[1..] == a[1..] + b;
      assert RemoveChar(a + b, c) == head + RemoveChar(a[1..] + b, c);
      assert RemoveChar(a, c) == head + RemoveChar(a[1..], c);
      RemoveCharConcat(a[1..], b, c);
      assert head + (RemoveChar(a[1..], c) + RemoveChar(b, c)) == (head + RemoveChar(a[1..], c)) + RemoveChar(b, c);
    }
  }

  // ---------------------------------------------------------------------------
  // str.split(sep) for a single-character separator
  // ---------------------------------------------------------------------------

  /** Inverse of split: the pieces glued back with the separator. */
  function Join(parts: seq<string>, sep: char): string
    requires |parts| >= 1
  {
    if |parts| == 1 then parts[0] else parts[0] + [sep] + Join(parts[1..], sep)
  }

  /** Number of occurrences of c in s. */
  function Count(s: string, c: char): nat {
    multiset(s)[c]
  }

  /** `s.split(sep)`, scanning s from the left. */
  function Split(s: string, sep: char): (parts: seq<string>)
    ensures |parts| >= 1
  {
    if s == [] then [[]]
    else
      var rest := Split(s[1..], sep);
      if s[0] == sep then [[]] + rest else [[s[0]] + rest[0]] + rest[1..]
  }

  /** Split has one more piece than there are separators. */
  lemma {:induction false} SplitCount(s: string, sep: char)
    ensures |Split(s, sep)| == Count(s, sep) + 1
  {
    if s != [] {
      assert s == [s[0]] + s[1..];
      assert multiset(s) == multiset{s[0]} + multiset(s[1..]);
      SplitCount(s[1..], sep);
    }
  }

  /** No piece of a split holds the separator. */
  lemma {:induction false} SplitPiecesFree(s: string, sep: char)
    ensures forall k :: 0 <= k < |Split(s, sep)| ==> sep !in Split(s, sep)[k]
  {
    if s != [] {
      SplitPiecesFree(s[1..], sep);
      var rest := Split(s[1..], sep);
      var parts := Split(s, sep);
      if s[0] != sep {
        assert parts[0] == [s[0]] + rest[0];
        assert forall k :: 1 <= k < |parts| ==> parts[k] == rest[k];
      } else {
        assert forall k :: 1 <= k < |parts| ==> parts[k] == rest[k - 1];
      }
    }
  }

  /** Joining the pieces of a split with the separator gives the string back. */
  lemma {:induction false} SplitJoin(s: string, sep: char)
    ensures Join(Split(s, sep), sep) == s
  {
    if s != [] {
      assert s == [s[0]] + s[1..];
      SplitJoin(s[1..], sep);
      var rest := Split(s[1..], sep);
      var parts := Split(s, sep);
      if s[0] != sep {
        assert parts[1..] == rest[1..];
        if |rest| > 1 {
          assert Join(parts, sep) == [s[0]] + (rest[0] + [sep] + Join(rest[1..], sep));
        }
      } else {
        assert parts[1..] == rest;
      }
    }
  }

  // ---------------------------------------------------------------------------
  // Digit runs: re.findall("\d+", s)[0] and re.search('[0-9]{4}', s)
  // ---------------------------------------------------------------------------

  /** s[a..b] is the leftmost maximal run of digits in s. */
  ghost predicate IsFirstDigitRun(s: string, a: int, b: int) {
    && 0 <= a < b <= |s|
    && AllDigits(s[a..b])
    && (b == |s| || !IsDigit(s[b]))
    && (forall j :: 0 <= j < a ==> !IsDigit(s[j]))
  }

  function FirstDigitFrom(s: string, i: nat): (r: Option<nat>)
    requires i <= |s|
    ensures r.Some? ==> i <= r.value < |s| && IsDigit(s[r.value])
    ensures r.Some? ==> forall j :: i <= j < r.value ==> !IsDigit(s[j])
    ensures r.None? ==> forall j :: i <= j < |s| ==> !IsDigit(s[j])
    decreases |s| - i
  {
    if i == |s| then None
    else if IsDigit(s[i]) then Some(i)
    else FirstDigitFrom(s, i + 1)
  }

  function RunEnd(s: string, i: nat): (e: nat)
    requires i <= |s|
    ensures i <= e <= |s|
    ensures forall j :: i <= j < e ==> IsDigit(s[j])
    ensures e == |s| || !IsDigit(s[e])
    decreases |s| - i
  {
    if i == |s| || !IsDigit(s[i]) then i else RunEnd(s, i + 1)
  }

  /** The bounds of the first match of `\d+` in s, or None when s has no digit. */
  function FirstDigitRun(s: string): (r: Option<(nat, nat)>)
    ensures r.Some? ==> IsFirstDigitRun(s, r.value.0, r.value.1)
    ensures r.None? <==> forall j :: 0 <= j < |s| ==> !IsDigit(s[j])
  {
    match FirstDigitFrom(s, 0)
    case None => None
    case Some(a) => Some((a, RunEnd(s, a)))
  }

  /** A string has at most one first digit run. */
  lemma FirstDigitRunUnique(s: string, a: int, b: int, a': int, b': int)
    requires IsFirstDigitRun(s, a, b) && IsFirstDigitRun(s, a', b')
    ensures a == a' && b == b'
  {
    assert forall j :: a <= j < b ==> IsDigit(s[j]) by {
      forall j | a <= j < b ensures IsDigit(s[j]) {
        assert s[a..b][j - a] == s[j];
      }
    }
    assert forall j :: a' <= j < b' ==> IsDigit(s[j]) by {
      forall j | a' <= j < b' ensures IsDigit(s[j]) {
        assert s[a'..b'][j - a'] == s[j];
      }
    }
    assert IsDigit(s[a]) && IsDigit(s[a']);
  }

  /** Four digits start at index i. */
  predicate FourDigitsAt(s: string, i: int) {
    0 <= i && i + 4 <= |s| && forall j :: i <= j < i + 4 ==> IsDigit(s[j])
  }

  function FourDigitsFrom(s: string, i: nat): (r: Option<nat>)
    requires i <= |s|
    ensures r.Some? ==> i <= r.value && FourDigitsAt(s, r.value)
    ensures r.Some? ==> forall j :: i <= j < r.value ==> !FourDigitsAt(s, j)
    ensures r.None? ==> forall j :: i <= j ==> !FourDigitsAt(s, j)
    decreases |s| - i
  {
    if i + 4 > |s| then None
    else if FourDigitsAt(s, i) then Some(i)
    else FourDigitsFrom(s, i + 1)
  }

  /** Start of the first match of `[0-9]{4}` in s, or None when there is none. */
  function FirstFourDigits(s: string): (r: Option<nat>)
    ensures r.Some? ==> FourDigitsAt(s, r.value)
    ensures r.Some? ==> forall j :: 0 <= j < r.value ==> !FourDigitsAt(s, j)
    ensures r.None? <==> forall j :: 0 <= j ==> !FourDigitsAt(s, j)
  {
    FourDigitsFrom(s, 0)
  }

  // ---------------------------------------------------------------------------
  // float() on the strings the scraper feeds it
  // ---------------------------------------------------------------------------

  function Pow10(n: nat): (r: nat)
    ensures r >= 1
  {
    if n == 0 then 1 else 10 * Pow10(n - 1)
  }

  /** Index of the first occurrence of c in s. */
  function IndexOf(s: string, c: char): (r: Option<nat>)
    ensures r.Some? ==> r.value < |s| && s[r.value] == c
    ensures r.Some? ==> forall j :: 0 <= j < r.value ==> s[j] != c
    ensures r.None? <==> c !in s
  {
    if s == [] then None
    else if s[0] == c then Some(0)
    else
      match IndexOf(s[1..], c)
      case None => None
      case Some(k) => Some(k + 1)
  }

  /** A decimal literal `ddd`, `ddd.ddd`, `ddd.` or `.ddd`, with at least one digit. */
  ghost predicate IsDecimalLiteral(s: string) {
    || (s != [] && AllDigits(s))
    || exists k :: 0 <= k < |s| && s[k] == '.' && IsPointSplit(s, k)
  }

  ghost predicate IsPointSplit(s: string, k: int)
    requires 0 <= k < |s|
  {
    AllDigits(s[..k]) && AllDigits(s[k + 1..]) && |s| >= 2
  }

  /** The value of the literal `whole.frac`. */
  function PointValue(whole: string, frac: string): (v: real)
    requires AllDigits(whole) && AllDigits(frac)
    ensures v >= DecimalValue(whole) as real
  {
    DecimalValue(whole) as real + DecimalValue(frac) as real / Pow10(|frac|) as real
  }

  /** `float(s)` for a plain decimal literal; None stands for the ValueError. */
  function ParseDecimal(s: string): (r: Option<real>)
    ensures r.Some? <==> IsDecimalLiteral(s)
    ensures r.Some? ==> r.value >= 0.0
    ensures s != [] && AllDigits(s) ==> r == Some(DecimalValue(s) as real)
  {
    match IndexOf(s, '.')
    case None =>
      if s != [] && AllDigits(s) then Some(DecimalValue(s) as real) else None
    case Some(k) =>
      var whole, frac := s[..k], s[k + 1..];
      if |s| >= 2 && AllDigits(whole) && AllDigits(frac) then
        Some(PointValue(whole, frac))
      else
        assert forall k' :: 0 <= k' < |s| && s[k'] == '.' ==> !IsPointSplit(s, k') by {
          forall k' | 0 <= k' < |s| && s[k'] == '.' ensures !IsPointSplit(s, k') {
            if k' > k {
              assert !IsDigit(s[..k'][k]);
            }
          }
        }
        assert !AllDigits(s) by {
          assert !IsDigit(s[k]);
        }
        None
  }

  /** A literal with a point reads as its whole part plus its fraction part
      scaled down by the fraction's length. */
  lemma ParseDecimalValue(s: string, k: int)
    requires 0 <= k < |s| && s[k] == '.' && IsPointSplit(s, k)
    ensures ParseDecimal(s) == Some(PointValue(s[..k], s[k + 1..]))
  {
    assert IndexOf(s, '.') == Some(k) by {
      forall j | 0 <= j < k
        ensures s[j] != '.'
      {
        assert s[..k][j] == s[j];
      }
    }
  }

  /** `float(str(n)) == n`. */
  lemma ParseDecimalOfNumeral(n: nat)
    ensures ParseDecimal(NatToString(n)) == Some(n as real)
  {
    var s := NatToString(n);
    assert forall i :: 0 <= i < |s| ==> s[i] != '.';
    DecimalRoundTrip(n);
  }
}
