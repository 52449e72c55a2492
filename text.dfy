/**
 * Character classes and the handful of Python string operations the listing
 * parser uses: `str.isdigit`, `str.strip`, `in`, `str.replace(pat, "")`,
 * `str.join` and `int()` on a digit string.
 *
 * Digits are the ASCII digits. Whitespace is exactly the set of code points
 * for which Python's `str.isspace()` holds, which is also what `\s` and
 * `strip()` use on `str` values.
 */
module Text {
  import opened Options

  predicate IsDigit(c: char) {
    '0' <= c <= '9'
  }

  /** Python's whitespace: U+0009..U+000D, U+001C..U+0020, U+0085, U+00A0,
      U+1680, U+2000..U+200A, U+2028, U+2029, U+202F, U+205F, U+3000. */
  predicate IsSpace(c: char) {
    ('\t' <= c <= '\r') || ('\U{1C}' <= c <= ' ') || c == '\U{85}' || c == '\U{A0}'
    || c == '\U{1680}' || ('\U{2000}' <= c <= '\U{200A}') || c == '\U{2028}'
    || c == '\U{2029}' || c == '\U{202F}' || c == '\U{205F}' || c == '\U{3000}'
  }

  const NBSP: char := '\U{A0}'

  predicate AllDigits(s: string) {
    forall k :: 0 <= k < |s| ==> IsDigit(s[k])
  }

  predicate AllSpace(s: string) {
    forall k :: 0 <= k < |s| ==> IsSpace(s[k])
  }

  /** Python's `s.isdigit()`, restricted to ASCII digits: non-empty and all digits. */
  predicate IsDigitString(s: string) {
    |s| > 0 && AllDigits(s)
  }

  /** The number of consecutive digits starting at `i`. */
  function DigitRun(h: string, i: nat): (n: nat)
    requires i <= |h|
    ensures i + n <= |h|
    ensures forall k :: i <= k < i + n ==> IsDigit(h[k])
    ensures i + n == |h| || !IsDigit(h[i + n])
    decreases |h| - i
  {
    if i < |h| && IsDigit(h[i]) then 1 + DigitRun(h, i + 1) else 0
  }

  /** No whitespace at either end: what `strip()` leaves. */
  predicate IsStripped(s: string) {
    s == [] || (!IsSpace(s[0]) && !IsSpace(s[|s| - 1]))
  }

  function DigitValue(c: char): (d: nat)
    requires IsDigit(c)
    ensures d < 10
  {
    (c as int - '0' as int) as nat
  }

  /** The number written by a string of decimal digits, most significant first. */
  function DecimalValue(s: string): nat
    requires AllDigits(s)
  {
    if s == [] then 0 else DecimalValue(s[..|s| - 1]) * 10 + DigitValue(s[|s| - 1])
  }

  /** The most digits `int()` converts from a decimal string: CPython's default
      `sys.get_int_max_str_digits()` (since 3.10.7 and 3.11). */
  const MaxIntDigits := 4300

  /** `int(s)` on the strings that can reach it here: `None` stands for the
      ValueError raised when `s` is not a non-empty digit string, or when it
      has more than `MaxIntDigits` digits. */
  function ParseDecimal(s: string): (r: Option<int>)
    ensures r.Some? <==> IsDigitString(s) && |s| <= MaxIntDigits
    ensures r.Some? ==> r.value >= 0 && r.value == DecimalValue(s)
  {
    if IsDigitString(s) && |s| <= MaxIntDigits then Some(DecimalValue(s)) else None
  }

  /** The number of whitespace characters `s` begins with. */
  function LeadingSpace(s: string): (n: nat)
    ensures n <= |s|
    ensures forall k :: 0 <= k < n ==> IsSpace(s[k])
    ensures n == |s| || !IsSpace(s[n])
  {
    if s != [] && IsSpace(s[0]) then 1 + LeadingSpace(s[1..]) else 0
  }

  /** The length of `s` without its trailing whitespace. */
  function TrailingStart(s: string): (j: nat)
    ensures j <= |s|
    ensures forall k :: j <= k < |s| ==> IsSpace(s[k])
    ensures j == 0 || !IsSpace(s[j - 1])
  {
    if s != [] && IsSpace(s[|s| - 1]) then TrailingStart(s[..|s| - 1]) else |s|
  }

  /** Python's `s.strip()`: the result is a slice of `s` with no whitespace at
      either end, and everything cut off is whitespace. */
  function Strip(s: string): (r: string)
    ensures IsStripped(r)
    ensures exists i, j :: 0 <= i <= j <= |s| && r == s[i..j] && AllSpace(s[..i]) && AllSpace(s[j..])
  {
    var i := LeadingSpace(s);
    var j := i + TrailingStart(s[i..]);
    StripSlice(s, i, j);
    s[i..j]
  }

  /** The cut `strip()` makes: leading whitespace up to `i`, trailing
      whitespace from `j`. */
  /** `s.strip()` is empty exactly when `s` is all whitespace. */
  lemma StripEmpty(s: string)
    ensures Strip(s) == [] <==> AllSpace(s)
  {
    var i := LeadingSpace(s);
    var j := i + TrailingStart(s[i..]);
    StripSlice(s, i, j);
    assert s == s[..i] + s[i..j] + s[j..];
  }

  lemma {:induction false} StripSlice(s: string, i: nat, j: nat)
    requires i == LeadingSpace(s) && j == i + TrailingStart(s[i..])
    ensures i <= j <= |s|
    ensures AllSpace(s[..i]) && AllSpace(s[j..]) && IsStripped(s[i..j])
  {
    var rest := s[i..];
    assert AllSpace(s[..i]) by {
      forall k | 0 <= k < i ensures IsSpace(s[..i][k]) {
        assert s[..i][k] == s[k];
      }
    }
    assert AllSpace(s[j..]) by {
      forall k | 0 <= k < |s| - j ensures IsSpace(s[j..][k]) {
        assert s[j..][k] == rest[j - i + k];
      }
    }
    if i < j {
      assert s[i..j][0] == rest[0];
      assert s[i..j][j - i - 1] == rest[j - i - 1];
    }
  }

  /** `sub` occurs in `s` at index `i`. */
  predicate OccursAt(s: string, sub: string, i: int) {
    0 <= i && i + |sub| <= |s| && s[i..i + |sub|] == sub
  }

  /** Python's `sub in s`. */
  function Contains(s: string, sub: string): (b: bool)
    ensures b <==> exists i :: OccursAt(s, sub, i)
    decreases |s|
  {
    if |sub| > |s| then
      assert forall i :: !OccursAt(s, sub, i);
      false
    else if s[..|sub|] == sub then
      assert OccursAt(s, sub, 0);
      true
    else
      var b := Contains(s[1..], sub);
      assert b ==> exists i :: OccursAt(s, sub, i) by {
        if b {
          var i :| OccursAt(s[1..], sub, i);
          assert s[1..][i..i + |sub|] == s[i + 1..i + 1 + |sub|];
          assert OccursAt(s, sub, i + 1);
        }
      }
      assert (exists i :: OccursAt(s, sub, i)) ==> b by {
        if exists i :: OccursAt(s, sub, i) {
          var i :| OccursAt(s, sub, i);
          assert i != 0;
          assert s[1..][i - 1..i - 1 + |sub|] == s[i..i + |sub|];
          assert OccursAt(s[1..], sub, i - 1);
        }
      }
      b
  }

  /** Python's `s.replace(pat, "")` for a non-empty `pat`: occurrences are
      removed left to right without overlapping. */
  function RemoveAll(s: string, pat: string): (r: string)
    requires pat != []
    ensures |r| <= |s|
    decreases |s|
  {
    if |s| < |pat| then s
    else if s[..|pat|] == pat then RemoveAll(s[|pat|..], pat)
    else [s[0]] + RemoveAll(s[1..], pat)
  }

  /** A text without `pat` is left as it is; otherwise at least one `pat`'s
      worth of characters is removed. */
  lemma {:induction false} RemoveAllSpec(s: string, pat: string)
    requires pat != []
    ensures !Contains(s, pat) ==> RemoveAll(s, pat) == s
    ensures Contains(s, pat) ==> |RemoveAll(s, pat)| <= |s| - |pat|
    decreases |s|
  {
    if |s| < |pat| {
      assert !Contains(s, pat);
    } else if s[..|pat|] == pat {
      assert OccursAt(s, pat, 0);
    } else {
      assert !OccursAt(s, pat, 0);
      ContainsInTail(s, pat);
      RemoveAllSpec(s[1..], pat);
    }
  }

  /** Without an occurrence at 0, `s` contains `pat` exactly when `s[1..]` does. */
  lemma {:induction false} ContainsInTail(s: string, pat: string)
    requires s != [] && !OccursAt(s, pat, 0)
    ensures Contains(s, pat) <==> Contains(s[1..], pat)
  {
    if Contains(s[1..], pat) {
      var i :| OccursAt(s[1..], pat, i);
      OccursShift(s, pat, i);
    }
    if Contains(s, pat) {
      var i :| OccursAt(s, pat, i);
      OccursShift(s, pat, i - 1);
    }
  }

  /** `replace` removes the leftmost occurrence first and resumes after it:
      when `pat` occurs nowhere before the occurrence that follows `x`, the
      result is `x` followed by the removal applied to the rest. */
  lemma {:induction false} RemoveAllLeftmost(x: string, pat: string, y: string)
    requires pat != []
    requires forall i :: 0 <= i < |x| ==> !OccursAt(x + pat + y, pat, i)
    ensures RemoveAll(x + pat + y, pat) == x + RemoveAll(y, pat)
  {
    var s := x + pat + y;
    assert OccursAt(s, pat, |x|) by {
      assert s[|x|..|x| + |pat|] == pat;
    }
    RemoveAllAt(s, pat, |x|);
    assert s[..|x|] == x && s[|x| + |pat|..] == y;
  }

  /** The same, on one text and the index `n` of its first occurrence. */
  lemma {:induction false} RemoveAllAt(s: string, pat: string, n: nat)
    requires pat != [] && OccursAt(s, pat, n)
    requires forall i :: 0 <= i < n ==> !OccursAt(s, pat, i)
    ensures RemoveAll(s, pat) == s[..n] + RemoveAll(s[n + |pat|..], pat)
    decreases n, 1
  {
    if n == 0 {
      assert s[..|pat|] == pat;
      assert s[..n] == [];
    } else {
      FirstInTail(s, pat, n);
      RemoveAllAtStep(s, pat, n);
    }
  }

  /** With its first occurrence at `n > 0`, `s` does not start with `pat`, and
      `s[1..]` has its first occurrence at `n - 1`. */
  lemma {:induction false} FirstInTail(s: string, pat: string, n: nat)
    requires pat != [] && 0 < n && OccursAt(s, pat, n)
    requires forall i :: 0 <= i < n ==> !OccursAt(s, pat, i)
    ensures s[..|pat|] != pat
    ensures OccursAt(s[1..], pat, n - 1)
    ensures forall i :: 0 <= i < n - 1 ==> !OccursAt(s[1..], pat, i)
  {
    assert !OccursAt(s, pat, 0);
    OccursShift(s, pat, n - 1);
    forall i | 0 <= i < n - 1
      ensures !OccursAt(s[1..], pat, i)
    {
      assert !OccursAt(s, pat, i + 1);
      OccursShift(s, pat, i);
    }
  }

  /** One step of `RemoveAllAt`: the first character is kept and the rest is
      handled from one place further on. */
  lemma {:induction false} RemoveAllAtStep(s: string, pat: string, n: nat)
    requires pat != [] && 0 < n && n + |pat| <= |s| && s[..|pat|] != pat
    requires OccursAt(s[1..], pat, n - 1)
    requires forall i :: 0 <= i < n - 1 ==> !OccursAt(s[1..], pat, i)
    ensures RemoveAll(s, pat) == s[..n] + RemoveAll(s[n + |pat|..], pat)
    decreases n, 0
  {
    var t := s[1..];
    RemoveAllAt(t, pat, n - 1);
    assert RemoveAll(s, pat) == [s[0]] + RemoveAll(t, pat);
    SliceAfterFirst(s, n, n + |pat|);
    KeepFirst(s, n, RemoveAll(t, pat), RemoveAll(s[n + |pat|..], pat));
  }

  /** Putting `s[0]` back in front of a text that begins with `s[1..n]`. */
  lemma KeepFirst(s: string, n: nat, rt: string, tail: string)
    requires 0 < n <= |s| && rt == s[1..][..n - 1] + tail
    ensures [s[0]] + rt == s[..n] + tail
  {
    assert [s[0]] + s[1..][..n - 1] == s[..n];
  }

  /** Slicing `s[1..]` is slicing `s` one place further on. */
  lemma SliceAfterFirst(s: string, n: nat, m: nat)
    requires 0 < n <= m <= |s|
    ensures s[1..][m - 1..] == s[m..]
  {
  }

  /** An occurrence in `s[1..]` is one in `s`, one place further on. */
  lemma OccursShift(s: string, pat: string, i: nat)
    requires s != []
    ensures OccursAt(s[1..], pat, i) <==> OccursAt(s, pat, i + 1)
  {
    if i + |pat| <= |s[1..]| {
      assert s[1..][i..i + |pat|] == s[i + 1..i + 1 + |pat|];
    }
  }

  /** Python's `s.replace(from, to)` for single characters. */
  function ReplaceChar(s: string, from: char, to: char): (r: string)
    ensures |r| == |s|
    ensures forall k :: 0 <= k < |s| ==> r[k] == (if s[k] == from then to else s[k])
  {
    if s == [] then [] else [if s[0] == from then to else s[0]] + ReplaceChar(s[1..], from, to)
  }

  /** Python's `sep.join(parts)`. */
  function Join(parts: seq<string>, sep: string): string {
    if parts == [] then ""
    else if |parts| == 1 then parts[0]
    else parts[0] + sep + Join(parts[1..], sep)
  }

  /** A join of non-empty parts begins with the first part and ends with the last. */
  lemma {:induction false} JoinEnds(parts: seq<string>, sep: string)
    requires |parts| > 0
    requires forall k :: 0 <= k < |parts| ==> parts[k] != []
    ensures Join(parts, sep) != []
    ensures Join(parts, sep)[0] == parts[0][0]
    ensures Join(parts, sep)[|Join(parts, sep)| - 1] == parts[|parts| - 1][|parts[|parts| - 1]| - 1]
  {
    if |parts| > 1 {
      JoinEnds(parts[1..], sep);
      var rest := Join(parts[1..], sep);
      assert Join(parts, sep) == parts[0] + sep + rest;
    }
  }
}
