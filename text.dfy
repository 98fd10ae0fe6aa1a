/**
 * The java.lang.String operations the app relies on, modelled over Dafny
 * strings (one Dafny char per character).  Every function here follows the
 * JDK behaviour for the arguments the app passes.
 */
module Text {

  /** `s.contains(sub)`: `sub` occurs in `s` at some index. */
  predicate Contains(s: string, sub: string)
  {
    exists i :: 0 <= i <= |s| && StartsAt(s, sub, i)
  }

  /** `sub` occurs in `s` at index `i`. */
  predicate StartsAt(s: string, sub: string, i: int)
  {
    0 <= i <= |s| && sub <= s[i..]
  }

  /** `s.endsWith(suffix)`. */
  predicate EndsWith(s: string, suffix: string)
  {
    |suffix| <= |s| && s[|s| - |suffix|..] == suffix
  }

  /** The first index at or after `i` where `pat` starts, or -1. */
  function IndexOfFrom(s: string, pat: string, i: nat): (r: int)
    requires |pat| > 0
    ensures r == -1 || (i <= r && r + |pat| <= |s| && StartsAt(s, pat, r))
    decreases |s| - i
  {
    if i + |pat| > |s| then -1
    else if pat <= s[i..] then i
    else IndexOfFrom(s, pat, i + 1)
  }

  /** No match starts between `i` and the index found, nor anywhere after `i` when none is found. */
  lemma {:induction false} IndexOfFromFirst(s: string, pat: string, i: nat)
    requires |pat| > 0
    ensures var r := IndexOfFrom(s, pat, i);
      (r == -1 ==> forall k :: i <= k ==> !StartsAt(s, pat, k))
      && (r != -1 ==> forall k :: i <= k < r ==> !StartsAt(s, pat, k))
    decreases |s| - i
  {
    if i + |pat| <= |s| && !(pat <= s[i..]) {
      IndexOfFromFirst(s, pat, i + 1);
    }
  }

  /** `s.indexOf(pat, from)`; a negative `from` searches from the start. */
  function IndexOf(s: string, pat: string, from: int): int
    requires |pat| > 0
  {
    IndexOfFrom(s, pat, if from < 0 then 0 else from)
  }

  /**
   * `s.replace(target, replacement)`: every occurrence of `target`, scanning
   * left to right and never overlapping, is replaced.
   */
  function Replace(s: string, target: string, replacement: string): string
    requires |target| > 0
    decreases |s|
  {
    if s == [] then []
    else if target <= s then replacement + Replace(s[|target|..], target, replacement)
    else [s[0]] + Replace(s[1..], target, replacement)
  }

  /** The characters `String.trim` removes: every code up to and including the space. */
  predicate Blank(c: char)
  {
    c <= ' '
  }

  /** The first index at or after `i` that holds a non-blank, or `|s|`. */
  function SkipBlanks(s: string, i: nat): (r: nat)
    requires i <= |s|
    ensures i <= r <= |s| && (r == |s| || !Blank(s[r]))
    ensures forall k :: i <= k < r ==> Blank(s[k])
    decreases |s| - i
  {
    if i < |s| && Blank(s[i]) then SkipBlanks(s, i + 1) else i
  }

  /** The end of `s[..j]` once its trailing blanks are dropped. */
  function DropTrailingBlanks(s: string, j: nat): (r: nat)
    requires j <= |s|
    ensures r <= j && (r == 0 || !Blank(s[r - 1]))
    ensures forall k :: r <= k < j ==> Blank(s[k])
    decreases j
  {
    if j > 0 && Blank(s[j - 1]) then DropTrailingBlanks(s, j - 1) else j
  }

  /**
   * `s.trim()`: `s` without its leading and trailing blanks; what is left
   * starts and ends with a non-blank and is a contiguous piece of `s`, and
   * everything cut off on either side is blank.
   */
  function Trim(s: string): (r: string)
    ensures r == [] || (!Blank(r[0]) && !Blank(r[|r| - 1]))
    ensures exists i, j :: 0 <= i <= j <= |s| && r == s[i..j]
              && (forall k :: 0 <= k < i ==> Blank(s[k]))
              && (forall k :: j <= k < |s| ==> Blank(s[k]))
  {
    var i := SkipBlanks(s, 0);
    var j := DropTrailingBlanks(s, |s|);
    if j <= i then
      assert s[i..i] == [];
      []
    else
      s[i..j]
  }

  /** Character.toUpperCase restricted to ASCII letters. */
  function UpperAscii(c: char): char
  {
    if 'a' <= c <= 'z' then (c as int - 32) as char else c
  }

  /** `a.equalsIgnoreCase(b)` with ASCII case folding. */
  predicate EqualsIgnoreCase(a: string, b: string)
  {
    |a| == |b| && forall i :: 0 <= i < |a| ==> UpperAscii(a[i]) == UpperAscii(b[i])
  }

  /**
   * `s.substring(s.lastIndexOf(c) + 1)`: the text after the last `c`, or all
   * of `s` when it holds no `c`.
   */
  function AfterLast(s: string, c: char): (r: string)
    ensures c !in r
    ensures |r| <= |s| && r == s[|s| - |r|..]
    ensures |r| < |s| ==> s[|s| - |r| - 1] == c
    decreases |s|
  {
    if s == [] then []
    else if s[|s| - 1] == c then []
    else
      var p := s[..|s| - 1];
      var q := AfterLast(p, c);
      assert s[|p| - |q|..] == p[|p| - |q|..] + [s[|s| - 1]];
      assert |q| < |p| ==> s[|p| - |q| - 1] == p[|p| - |q| - 1];
      q + [s[|s| - 1]]
  }

  // ---------------------------------------------------------------------------
  // Facts about the operations above.

  /** A piece of a string can contain only what the whole string contains. */
  lemma ContainsSlice(s: string, i: int, j: int, sub: string)
    requires 0 <= i <= j <= |s| && Contains(s[i..j], sub)
    ensures Contains(s, sub)
  {
    var k :| 0 <= k <= |s[i..j]| && StartsAt(s[i..j], sub, k);
    assert s[i..j][k..] <= s[i + k..];
    assert StartsAt(s, sub, i + k);
  }

  /** Replace leaves a string alone when the target does not occur in it. */
  lemma {:induction false} ReplaceAbsent(s: string, target: string, replacement: string)
    requires |target| > 0 && !Contains(s, target)
    ensures Replace(s, target, replacement) == s
    decreases |s|
  {
    if s != [] {
      assert s[0..] == s && !StartsAt(s, target, 0);
      forall k | 0 <= k <= |s[1..]|
        ensures !StartsAt(s[1..], target, k)
      {
        assert s[1..][k..] == s[k + 1..];
        assert !StartsAt(s, target, k + 1);
      }
      ReplaceAbsent(s[1..], target, replacement);
    }
  }

  /** Every character of the result comes from the text or from the replacement. */
  lemma {:induction false} ReplaceChars(s: string, target: string, replacement: string)
    requires |target| > 0
    ensures forall c :: c in Replace(s, target, replacement) ==> c in s || c in replacement
    decreases |s|
  {
    if s != [] {
      if target <= s {
        var rest := s[|target|..];
        ReplaceChars(rest, target, replacement);
        assert forall c :: c in rest ==> c in s;
      } else {
        ReplaceChars(s[1..], target, replacement);
        assert forall c :: c in s[1..] ==> c in s;
      }
    }
  }

  /** A single-character target is replaced character by character, so Replace distributes over `+`. */
  lemma {:induction false} ReplaceCharConcat(a: string, b: string, target: string, replacement: string)
    requires |target| == 1
    ensures Replace(a + b, target, replacement) == Replace(a, target, replacement) + Replace(b, target, replacement)
    decreases |a|
  {
    if a != [] {
      assert (a + b)[1..] == a[1..] + b;
      assert target <= a + b <==> target <= a;
      ReplaceCharConcat(a[1..], b, target, replacement);
    } else {
      assert a + b == b;
    }
  }

  /** A character not in `s` is not in the trimmed `s` either. */
  lemma ContainsTrim(s: string, sub: string)
    requires Contains(Trim(s), sub)
    ensures Contains(s, sub)
  {
    var i, j :| 0 <= i <= j <= |s| && Trim(s) == s[i..j];
    ContainsSlice(s, i, j, sub);
  }

  /** A pattern holding a character that `s` lacks does not occur in `s`. */
  lemma NotContainsChar(s: string, sub: string, c: char)
    requires c in sub && c !in s
    ensures !Contains(s, sub)
  {
    var k :| 0 <= k < |sub| && sub[k] == c;
    forall i | 0 <= i <= |s|
      ensures !StartsAt(s, sub, i)
    {
      if k < |s[i..]| {
        assert s[i..][k] == s[i + k] && s[i + k] != c;
      }
    }
  }

  /** The first match at or after `from` is the one at `k` when none lies between them. */
  lemma FirstMatch(s: string, pat: string, from: nat, k: nat)
    requires |pat| > 0 && from <= k <= |s| && pat <= s[k..]
    requires forall j :: from <= j < k ==> !StartsAt(s, pat, j)
    ensures IndexOf(s, pat, from) == k
  {
    var r := IndexOfFrom(s, pat, from);
    IndexOfFromFirst(s, pat, from);
    assert StartsAt(s, pat, k);
    assert r != -1;
    assert !(r < k);
  }

  /** A piece in which no match starts before its end holds no match. */
  lemma NoMatchBefore(s: string, pat: string, start: nat, end: nat)
    requires |pat| > 0 && start <= end <= |s|
    requires forall j :: start <= j < end ==> !StartsAt(s, pat, j)
    ensures !Contains(s[start..end], pat)
  {
    forall k | 0 <= k <= end - start
      ensures !StartsAt(s[start..end], pat, k)
    {
      if k + |pat| <= end - start {
        assert s[start..end][k..][..|pat|] == s[start + k..][..|pat|];
        assert !StartsAt(s, pat, start + k);
      }
    }
  }

  /** A pattern does not start where one of its characters is missing. */
  lemma NotStartsAtChar(s: string, pat: string, j: nat, k: nat)
    requires j <= |s| && k < |pat| && (j + k >= |s| || s[j + k] != pat[k])
    ensures !StartsAt(s, pat, j)
  {
    if j + k < |s| && |pat| <= |s| - j {
      assert s[j..][k] == s[j + k];
    }
  }

  /** A two-character pattern starts at `j` exactly when both its characters are there. */
  lemma PairAt(s: string, pair: string, j: nat)
    requires |pair| == 2 && j + 2 <= |s|
    ensures StartsAt(s, pair, j) <==> s[j] == pair[0] && s[j + 1] == pair[1]
  {
    assert s[j..][..2] == [s[j], s[j + 1]];
  }

  /** Nothing is found from `start` when the rest of the text holds no match. */
  lemma NoMatchFrom(s: string, pat: string, start: nat)
    requires |pat| > 0 && start <= |s| && !Contains(s[start..], pat)
    ensures IndexOf(s, pat, start) == -1
  {
    var r := IndexOf(s, pat, start);
    if r != -1 {
      assert s[start..][r - start..] == s[r..];
      assert StartsAt(s[start..], pat, r - start);
    }
  }

  /** A piece followed by a match is a prefix of the text from the piece's start. */
  lemma PieceThenMatch(s: string, start: nat, end: nat, pat: string)
    requires start <= end <= |s| && pat <= s[end..]
    ensures s[start..end] + pat <= s[start..]
  {
    assert s[start..][..end - start] == s[start..end];
    assert s[start..][end - start..] == s[end..];
  }

  /**
   * A two-character pattern absent from both halves is absent from their
   * concatenation unless it straddles the seam.
   */
  lemma NotContainsPairConcat(a: string, b: string, pair: string)
    requires |pair| == 2 && !Contains(a, pair) && !Contains(b, pair)
    requires a == [] || b == [] || !(a[|a| - 1] == pair[0] && b[0] == pair[1])
    ensures !Contains(a + b, pair)
  {
    forall i | 0 <= i <= |a + b|
      ensures !StartsAt(a + b, pair, i)
    {
      if i + 2 <= |a| {
        assert (a + b)[i..i + 2] == a[i..][..2];
        assert !StartsAt(a, pair, i);
      } else if i >= |a| {
        assert (a + b)[i..] == b[i - |a|..];
        assert !StartsAt(b, pair, i - |a|);
      }
    }
  }

  // ---------------------------------------------------------------------------
  // Decimal numerals.

  function DigitChar(d: nat): char
    requires d < 10
  {
    ('0' as int + d) as char
  }

  predicate IsDigit(c: char)
  {
    '0' <= c <= '9'
  }

  /** `Integer.toString(n)` for a non-negative `n`. */
  function Decimal(n: nat): (r: string)
    ensures r != [] && forall i :: 0 <= i < |r| ==> IsDigit(r[i])
    ensures n < 10 <==> |r| == 1
    decreases n
  {
    if n < 10 then [DigitChar(n)] else Decimal(n / 10) + [DigitChar(n % 10)]
  }

  /** The value of a string of digits. */
  function DecimalValue(s: string): nat
    requires forall i :: 0 <= i < |s| ==> IsDigit(s[i])
    decreases |s|
  {
    if s == [] then 0
    else
      assert IsDigit(s[|s| - 1]);
      DecimalValue(s[..|s| - 1]) * 10 + (s[|s| - 1] as int - '0' as int)
  }

  /** Reading the numeral back gives the number: the numeral names `n` and no other number. */
  lemma {:induction false} DecimalRoundTrip(n: nat)
    ensures DecimalValue(Decimal(n)) == n
    decreases n
  {
    if n >= 10 {
      DecimalRoundTrip(n / 10);
      var r := Decimal(n);
      assert r[..|r| - 1] == Decimal(n / 10);
    }
  }

  /** `n` written with at least `width` digits, zeros in front (a SimpleDateFormat field). */
  function ZeroPadded(n: nat, width: nat): (r: string)
    ensures forall i :: 0 <= i < |r| ==> IsDigit(r[i])
    ensures |Decimal(n)| <= width ==> |r| == width
  {
    seq(if |Decimal(n)| < width then width - |Decimal(n)| else 0, _ => '0') + Decimal(n)
  }

  /** Leading zeros do not change the value. */
  lemma {:induction false} ZeroPaddedValue(n: nat, width: nat)
    ensures DecimalValue(ZeroPadded(n, width)) == n
  {
    var zeros := seq(if |Decimal(n)| < width then width - |Decimal(n)| else 0, _ => '0');
    LeadingZeros(zeros, Decimal(n));
    DecimalRoundTrip(n);
  }

  lemma {:induction false} LeadingZeros(zeros: string, digits: string)
    requires forall i :: 0 <= i < |zeros| ==> zeros[i] == '0'
    requires forall i :: 0 <= i < |digits| ==> IsDigit(digits[i])
    ensures DecimalValue(zeros + digits) == DecimalValue(digits)
    decreases |digits|
  {
    if digits == [] {
      assert zeros + digits == zeros;
      AllZeros(zeros);
    } else {
      assert (zeros + digits)[..|zeros + digits| - 1] == zeros + digits[..|digits| - 1];
      LeadingZeros(zeros, digits[..|digits| - 1]);
    }
  }

  lemma {:induction false} AllZeros(zeros: string)
    requires forall i :: 0 <= i < |zeros| ==> zeros[i] == '0'
    ensures DecimalValue(zeros) == 0
    decreases |zeros|
  {
    if zeros != [] {
      AllZeros(zeros[..|zeros| - 1]);
    }
  }

  function Pow10(w: nat): (r: nat)
    ensures r >= 1
  {
    if w == 0 then 1 else 10 * Pow10(w - 1)
  }

  /** A number below 10^w has at most `w` digits. */
  lemma {:induction false} DecimalWidth(n: nat, w: nat)
    requires w >= 1 && n < Pow10(w)
    ensures |Decimal(n)| <= w
    decreases n
  {
    if n >= 10 {
      assert w >= 2;
      DecimalWidth(n / 10, w - 1);
    }
  }

  /** After every `c` is replaced by text without `c`, no `c` is left. */
  lemma {:induction false} ReplaceRemovesChar(s: string, c: char, replacement: string)
    requires c !in replacement
    ensures c !in Replace(s, [c], replacement)
    decreases |s|
  {
    if s != [] {
      ReplaceRemovesChar(s[1..], c, replacement);
      if [c] <= s {
        assert s[1..] == s[|[c]|..];
      }
    }
  }
}
