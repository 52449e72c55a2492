/**
 * Price extraction, shared word for word by both scraper scripts:
 *
 *  - the raw-markup fallback `re.search(r'(\d{1,3}(?:[.\s]\d{3})*|\d{3,6})\s*(?:kr|kr\.|,-)',
 *    html, flags=re.IGNORECASE)`, used when the price element gave no text;
 *  - `extract_int`, which turns a price text into an integer by searching it for
 *    `(\d{1,3}(?:[.\s]\d{3})*|\d{3,6})` and dropping `.` and whitespace from the match.
 *
 * Each regex is modelled twice: as the language its pattern denotes
 * (ghost predicates over a candidate match) and as a deterministic matcher that
 * follows the choices a backtracking engine makes. The lemmas prove that the
 * matcher returns exactly the match Python's `re.search` returns.
 */
module Prices {
  import opened Options
  import opened Text

  /** `[.\s]` */
  predicate IsSep(c: char) {
    c == '.' || IsSpace(c)
  }

  /** Under IGNORECASE, `k` also matches `K` and the Kelvin sign U+212A. */
  predicate IsK(c: char) {
    c == 'k' || c == 'K' || c == '\U{212A}'
  }

  predicate IsR(c: char) {
    c == 'r' || c == 'R'
  }

  // ---------------------------------------------------------------------------
  // The languages of the two patterns

  /** `(?:[.\s]\d{3})*`: whole groups of a separator and three digits. */
  predicate IsGroups(g: string) {
    |g| % 4 == 0 && forall n :: 0 <= n < |g| ==> if n % 4 == 0 then IsSep(g[n]) else IsDigit(g[n])
  }

  /** `\d{1,3}(?:[.\s]\d{3})*` */
  ghost predicate IsGrouped(u: string) {
    exists k :: 1 <= k <= 3 && k <= |u| && AllDigits(u[..k]) && IsGroups(u[k..])
  }

  /** `\d{3,6}` */
  predicate IsPlain(u: string) {
    3 <= |u| <= 6 && AllDigits(u)
  }

  /** `\d{1,3}(?:[.\s]\d{3})*|\d{3,6}` */
  ghost predicate IsNumber(u: string) {
    IsGrouped(u) || IsPlain(u)
  }

  /** `kr|kr\.|,-` under IGNORECASE */
  predicate IsCurrency(x: string) {
    || (|x| == 2 && IsK(x[0]) && IsR(x[1]))
    || (|x| == 3 && IsK(x[0]) && IsR(x[1]) && x[2] == '.')
    || x == ",-"
  }

  /** The strings the raw-markup price pattern matches as a whole:
      a number, optional whitespace, a currency marker. */
  ghost predicate IsPriceToken(u: string) {
    exists e, w :: 0 <= e <= w <= |u| && IsNumber(u[..e]) && AllSpace(u[e..w]) && IsCurrency(u[w..])
  }

  ghost predicate TokenAt(h: string, a: int, b: int) {
    0 <= a <= b <= |h| && IsPriceToken(h[a..b])
  }

  // ---------------------------------------------------------------------------
  // Scanning helpers

  /** One `[.\s]\d{3}` group starts at `p`. */
  predicate GroupAt(h: string, p: nat) {
    p + 4 <= |h| && IsSep(h[p]) && IsDigit(h[p + 1]) && IsDigit(h[p + 2]) && IsDigit(h[p + 3])
  }

  /** Where the greedy `(?:[.\s]\d{3})*` that starts at `p` stops. */
  function GroupsEnd(h: string, p: nat): (q: nat)
    requires p <= |h|
    ensures p <= q <= |h| && (q - p) % 4 == 0
    ensures !GroupAt(h, q)
    decreases |h| - p
  {
    if GroupAt(h, p) then GroupsEnd(h, p + 4) else p
  }

  /** Where the greedy `\s*` that starts at `p` stops. */
  function SpaceEnd(h: string, p: nat): (q: nat)
    requires p <= |h|
    ensures p <= q <= |h|
    ensures forall k :: p <= k < q ==> IsSpace(h[k])
    ensures q == |h| || !IsSpace(h[q])
    decreases |h| - p
  {
    if p < |h| && IsSpace(h[p]) then SpaceEnd(h, p + 1) else p
  }

  /** A currency marker starts at `w`; only its first two characters decide. */
  predicate CurrencyAt(h: string, w: nat) {
    w + 2 <= |h| && ((IsK(h[w]) && IsR(h[w + 1])) || (h[w] == ',' && h[w + 1] == '-'))
  }

  // ---------------------------------------------------------------------------
  // Facts about groups

  lemma {:induction false} GroupsEndIsGroups(h: string, p: nat)
    requires p <= |h|
    ensures IsGroups(h[p..GroupsEnd(h, p)])
    decreases |h| - p
  {
    if GroupAt(h, p) {
      GroupsEndIsGroups(h, p + 4);
      var q := GroupsEnd(h, p);
      assert forall n :: 4 <= n < q - p ==> h[p..q][n] == h[p + 4..q][n - 4];
    }
  }

  /** Every run of groups from `p` stops no later than the greedy one, and one
      that stops earlier is followed by another group. */
  lemma {:induction false} GroupsBound(h: string, p: nat, q: nat)
    requires p <= q <= |h| && IsGroups(h[p..q])
    ensures q <= GroupsEnd(h, p)
    ensures q < GroupsEnd(h, p) ==> GroupAt(h, q)
    decreases q - p
  {
    if q > p {
      var g := h[p..q];
      assert g[0] == h[p] && g[1] == h[p + 1] && g[2] == h[p + 2] && g[3] == h[p + 3];
      assert GroupAt(h, p);
      var g' := h[p + 4..q];
      assert forall n :: 0 <= n < |g'| ==> g'[n] == g[n + 4];
      assert IsGroups(g');
      GroupsBound(h, p + 4, q);
    }
  }

  /** The greedy `\d{1,3}(?:[.\s]\d{3})*` at a digit: at most three digits,
      then as many groups as follow. */
  function GroupedEnd(h: string, i: nat): (q: nat)
    requires i < |h| && IsDigit(h[i])
    ensures i < q <= |h|
  {
    var run := DigitRun(h, i);
    GroupsEnd(h, i + if run < 3 then run else 3)
  }

  /** Unpacks the first alternative's language at an offset of `h`. */
  lemma GroupedSplit(h: string, i: nat, q: nat) returns (k: nat)
    requires i <= q <= |h| && IsGrouped(h[i..q])
    ensures 1 <= k <= 3 && i + k <= q
    ensures forall m :: i <= m < i + k ==> IsDigit(h[m])
    ensures IsGroups(h[i + k..q])
  {
    k :| 1 <= k <= 3 && k <= q - i && AllDigits(h[i..q][..k]) && IsGroups(h[i..q][k..]);
    assert h[i..q][k..] == h[i + k..q];
    assert forall m :: i <= m < i + k ==> h[m] == h[i..q][..k][m - i];
  }

  /** Packs digits followed by groups into the first alternative's language. */
  lemma GroupedJoin(h: string, i: nat, k: nat, q: nat)
    requires 1 <= k <= 3 && i + k <= q <= |h|
    requires forall m :: i <= m < i + k ==> IsDigit(h[m])
    requires IsGroups(h[i + k..q])
    ensures IsGrouped(h[i..q])
  {
    assert h[i..q][k..] == h[i + k..q];
    assert forall m :: 0 <= m < k ==> h[i..q][..k][m] == h[i + m];
  }

  /** Groups cannot start at a digit. */
  lemma NoGroupsAtDigit(h: string, p: nat, q: nat)
    requires p <= q <= |h| && IsGroups(h[p..q])
    requires p < |h| && IsDigit(h[p])
    ensures q == p
  {
  }

  /** A run of digits from `i` is no longer than `DigitRun`. */
  lemma {:induction false} DigitsWithinRun(h: string, i: nat, m: nat)
    requires i + m <= |h|
    requires forall x :: i <= x < i + m ==> IsDigit(h[x])
    ensures m <= DigitRun(h, i)
    decreases m
  {
    if m > 0 {
      assert IsDigit(h[i]);
      DigitsWithinRun(h, i + 1, m - 1);
    }
  }

  /** Nothing in the first alternative's language from `i` is longer than the
      greedy match: `k'` leading digits followed by groups up to `q`. */
  lemma GroupedBound(h: string, i: nat, k': nat, q: nat)
    requires i < |h| && IsDigit(h[i])
    requires 1 <= k' <= 3 && i + k' <= q <= |h|
    requires forall m :: i <= m < i + k' ==> IsDigit(h[m])
    requires IsGroups(h[i + k'..q])
    ensures q <= GroupedEnd(h, i)
  {
    var run := DigitRun(h, i);
    DigitsWithinRun(h, i, k');
    if k' < run && k' < 3 {
      ShortSplitBound(h, i, k', q);
    } else {
      FullSplitBound(h, i, k', q);
    }
  }

  lemma ShortSplitBound(h: string, i: nat, k': nat, q: nat)
    requires i < |h| && IsDigit(h[i])
    requires 1 <= k' <= 3 && i + k' <= q <= |h|
    requires k' < DigitRun(h, i) && k' < 3
    requires IsGroups(h[i + k'..q])
    ensures q <= GroupedEnd(h, i)
  {
    assert IsDigit(h[i + k']);
    NoGroupsAtDigit(h, i + k', q);
  }

  lemma FullSplitBound(h: string, i: nat, k': nat, q: nat)
    requires i < |h| && IsDigit(h[i])
    requires 1 <= k' <= 3 && i + k' <= q <= |h|
    requires k' <= DigitRun(h, i) && (k' == DigitRun(h, i) || k' == 3)
    requires IsGroups(h[i + k'..q])
    ensures q <= GroupedEnd(h, i)
  {
    assert GroupedEnd(h, i) == GroupsEnd(h, i + k');
    GroupsBound(h, i + k', q);
  }

  /** The greedy match is in the language, and nothing longer from `i` is. */
  lemma GroupedEndIsLongest(h: string, i: nat)
    requires i < |h| && IsDigit(h[i])
    ensures IsGrouped(h[i..GroupedEnd(h, i)])
    ensures forall q :: i <= q <= |h| && IsGrouped(h[i..q]) ==> q <= GroupedEnd(h, i)
  {
    var run := DigitRun(h, i);
    var k := if run < 3 then run else 3;
    GroupsEndIsGroups(h, i + k);
    GroupedJoin(h, i, k, GroupedEnd(h, i));
    forall q | i <= q <= |h| && IsGrouped(h[i..q])
      ensures q <= GroupedEnd(h, i)
    {
      var k' := GroupedSplit(h, i, q);
      GroupedBound(h, i, k', q);
    }
  }

  // ---------------------------------------------------------------------------
  // The raw-markup price pattern

  /** The end of the number part that can lead to a match at digit `i`.
      With at most three leading digits the first alternative's greedy groups are
      the only candidate; with four to six the first alternative takes three
      digits and then faces a digit, so the second alternative `\d{3,6}` takes the
      whole run; with more than six digits every candidate is followed by a digit. */
  function NumberEnd(h: string, i: nat): Option<nat>
    requires i < |h| && IsDigit(h[i])
  {
    var run := DigitRun(h, i);
    if run <= 3 then Some(GroupsEnd(h, i + run))
    else if run <= 6 then Some(i + run)
    else None
  }

  /** The end of the raw-markup price match that starts at `i`, if any. */
  function MatchEndAt(h: string, i: nat): Option<nat>
    requires i < |h|
  {
    if !IsDigit(h[i]) then None
    else match NumberEnd(h, i)
      case None => None
      case Some(e) =>
        var w := SpaceEnd(h, e);
        if CurrencyAt(h, w) then Some(w + 2) else None
  }

  /** Whitespace running from `e` up to a currency marker leaves no room for a
      digit or a group at `e`. */
  lemma NothingBeforeCurrency(h: string, e: nat, w: nat)
    requires e <= w && CurrencyAt(h, w)
    requires forall k :: e <= k < w ==> IsSpace(h[k])
    ensures !IsDigit(h[e]) && !GroupAt(h, e)
    ensures SpaceEnd(h, e) == w
  {
  }

  /** Unpacks a match at an offset of `h`. */
  lemma TokenSplit(h: string, i: nat, j: nat) returns (E: nat, W: nat)
    requires TokenAt(h, i, j)
    ensures i <= E <= W && W + 2 <= j && IsNumber(h[i..E])
    ensures forall k :: E <= k < W ==> IsSpace(h[k])
    ensures CurrencyAt(h, W)
  {
    var u := h[i..j];
    var e, w :| 0 <= e <= w <= |u| && IsNumber(u[..e]) && AllSpace(u[e..w]) && IsCurrency(u[w..]);
    E, W := i + e, i + w;
    assert u[..e] == h[i..E];
    SliceSpaces(h, i, j, e, w);
    SliceCurrency(h, i, j, w);
  }

  lemma SliceSpaces(h: string, i: nat, j: nat, e: nat, w: nat)
    requires i <= j <= |h| && e <= w <= j - i && AllSpace(h[i..j][e..w])
    ensures forall k :: i + e <= k < i + w ==> IsSpace(h[k])
  {
    forall k | i + e <= k < i + w ensures IsSpace(h[k]) {
      assert h[k] == h[i..j][e..w][k - i - e];
    }
  }

  lemma SliceCurrency(h: string, i: nat, j: nat, w: nat)
    requires i <= j <= |h| && w <= j - i && IsCurrency(h[i..j][w..])
    ensures i + w + 2 <= j && CurrencyAt(h, i + w)
  {
    var c := h[i..j][w..];
    assert |c| >= 2;
    assert c[0] == h[i + w] && c[1] == h[i + w + 1];
  }

  /** Packs a number, whitespace and a currency marker into a match. */
  lemma TokenJoin(h: string, i: nat, E: nat, W: nat)
    requires i <= E <= W && CurrencyAt(h, W) && IsNumber(h[i..E])
    requires forall k :: E <= k < W ==> IsSpace(h[k])
    ensures TokenAt(h, i, W + 2)
  {
    var u := h[i..W + 2];
    var e, w := E - i, W - i;
    assert u[..e] == h[i..E];
    assert forall k :: 0 <= k < w - e ==> u[e..w][k] == h[E + k];
    assert u[w..] == h[W..W + 2];
  }

  /** A plain number part `\d{3,6}` before a currency marker is a whole digit run. */
  lemma PlainPartEnd(h: string, i: nat, E: nat)
    requires i <= E <= |h| && IsPlain(h[i..E])
    requires E < |h| && !IsDigit(h[E]) && !GroupAt(h, E)
    ensures IsDigit(h[i]) && NumberEnd(h, i) == Some(E)
  {
    assert h[i..E][0] == h[i];
    assert forall k :: i <= k < E ==> h[k] == h[i..E][k - i];
    var run := DigitRun(h, i);
    assert run == E - i;
    if run == 3 {
      GroupsBound(h, E, E);
    }
  }

  /** A grouped number part (`k` digits, then groups up to `E`) before a
      currency marker is the greedy one. */
  lemma GroupedPartEnd(h: string, i: nat, k: nat, E: nat)
    requires 1 <= k <= 3 && i + k <= E < |h| && !IsDigit(h[E]) && !GroupAt(h, E)
    requires forall m :: i <= m < i + k ==> IsDigit(h[m])
    requires IsGroups(h[i + k..E])
    ensures IsDigit(h[i]) && NumberEnd(h, i) == Some(E)
  {
    SplitIsRun(h, i, k, E);
    GroupsBound(h, i + k, E);
    RunThenGroupsEnd(h, i, k, E);
  }

  lemma RunThenGroupsEnd(h: string, i: nat, k: nat, E: nat)
    requires i < |h| && IsDigit(h[i]) && DigitRun(h, i) == k && k <= 3
    requires i + k <= E <= GroupsEnd(h, i + k) && !GroupAt(h, E)
    requires E < GroupsEnd(h, i + k) ==> GroupAt(h, E)
    ensures NumberEnd(h, i) == Some(E)
  {
  }

  /** The leading digits of a grouped number part before a non-digit are the
      whole digit run. */
  lemma SplitIsRun(h: string, i: nat, k: nat, E: nat)
    requires 1 <= k <= 3 && i + k <= E < |h| && !IsDigit(h[E])
    requires forall m :: i <= m < i + k ==> IsDigit(h[m])
    requires IsGroups(h[i + k..E])
    ensures IsDigit(h[i]) && DigitRun(h, i) == k
  {
    DigitsWithinRun(h, i, k);
    if E > i + k {
      assert h[i + k..E][0] == h[i + k];
    }
    assert !IsDigit(h[i + k]);
  }

  /** Any match at `i` has a number part ending where `NumberEnd` says, so the
      deterministic matcher finds it, and with the shortest end. */
  lemma TokenIsFound(h: string, i: nat, j: nat)
    requires TokenAt(h, i, j)
    ensures i < |h| && IsDigit(h[i])
    ensures MatchEndAt(h, i).Some? && MatchEndAt(h, i).value <= j
  {
    var E, W := TokenSplit(h, i, j);
    NothingBeforeCurrency(h, E, W);
    if IsPlain(h[i..E]) {
      PlainPartEnd(h, i, E);
    } else {
      var k := GroupedSplit(h, i, E);
      GroupedPartEnd(h, i, k, E);
    }
  }

  /** What the deterministic matcher finds is a match. */
  lemma FoundIsToken(h: string, i: nat)
    requires i < |h| && MatchEndAt(h, i).Some?
    ensures TokenAt(h, i, MatchEndAt(h, i).value)
  {
    var E := NumberEnd(h, i).value;
    NumberEndIsNumber(h, i);
    TokenJoin(h, i, E, SpaceEnd(h, E));
  }

  /** The number part the matcher takes is in the number language. */
  lemma NumberEndIsNumber(h: string, i: nat)
    requires i < |h| && IsDigit(h[i]) && NumberEnd(h, i).Some?
    ensures i <= NumberEnd(h, i).value <= |h| && IsNumber(h[i..NumberEnd(h, i).value])
  {
    var run := DigitRun(h, i);
    var E := NumberEnd(h, i).value;
    if run <= 3 {
      GroupsEndIsGroups(h, i + run);
      GroupedJoin(h, i, run, E);
    } else {
      forall m | 0 <= m < E - i ensures IsDigit(h[i..E][m]) {
        assert h[i..E][m] == h[i + m];
      }
      assert IsPlain(h[i..E]);
    }
  }

  /** The match that starts at `i`: exactly the shortest token there. */
  lemma MatchEndAtIsShortest(h: string, i: nat)
    requires i < |h|
    ensures MatchEndAt(h, i).None? ==> forall b :: !TokenAt(h, i, b)
    ensures MatchEndAt(h, i).Some? ==>
      TokenAt(h, i, MatchEndAt(h, i).value) && forall b :: TokenAt(h, i, b) ==> MatchEndAt(h, i).value <= b
  {
    if MatchEndAt(h, i).Some? {
      FoundIsToken(h, i);
    }
    forall b | TokenAt(h, i, b)
      ensures MatchEndAt(h, i).Some? && MatchEndAt(h, i).value <= b
    {
      TokenIsFound(h, i, b);
    }
  }

  /** No match starts at `i` or later. */
  ghost predicate NoTokenFrom(h: string, i: int) {
    forall a, b :: i <= a ==> !TokenAt(h, a, b)
  }

  /** Among the matches starting at `i` or later, `h[a..b]` starts leftmost and
      ends soonest. */
  ghost predicate FirstTokenFrom(h: string, i: int, a: int, b: int) {
    && i <= a
    && TokenAt(h, a, b)
    && (forall a', b' :: i <= a' < a ==> !TokenAt(h, a', b'))
    && (forall b' :: TokenAt(h, a, b') ==> b <= b')
  }

  /** Skipping a position at which nothing matches. */
  lemma SkipPosition(h: string, i: nat)
    requires forall b :: !TokenAt(h, i, b)
    ensures NoTokenFrom(h, i + 1) ==> NoTokenFrom(h, i)
    ensures forall a, b :: FirstTokenFrom(h, i + 1, a, b) ==> FirstTokenFrom(h, i, a, b)
  {
  }

  /** The span `(start, end)` of the `re.search` match of the raw-markup price
      pattern from position `i` on. */
  function PriceSearch(h: string, i: nat): (r: Option<(nat, nat)>)
    requires i <= |h|
    ensures r.None? ==> NoTokenFrom(h, i)
    ensures r.Some? ==> FirstTokenFrom(h, i, r.value.0, r.value.1)
    decreases |h| - i
  {
    if i == |h| then
      assert NoTokenFrom(h, i) by {
        forall a, b | i <= a && TokenAt(h, a, b) ensures false {
          TokenIsFound(h, a, b);
        }
      }
      None
    else
      MatchEndAtIsShortest(h, i);
      match MatchEndAt(h, i)
      case Some(j) =>
        assert FirstTokenFrom(h, i, i, j);
        Some((i, j))
      case None =>
        SkipPosition(h, i);
        PriceSearch(h, i + 1)
  }

  /** `u` ends in `kr` (any case) or `,-`. */
  predicate EndsInMarker(u: string) {
    |u| >= 2 && CurrencyAt(u, |u| - 2)
  }

  /** The match the search returns starts with a digit and ends in `kr` or
      `,-`, never in `kr.`: the trailing dot is left out because the shorter
      marker is tried first. */
  lemma SearchEndsAtMarker(h: string, i: nat)
    requires i <= |h| && PriceSearch(h, i).Some?
    ensures var (a, b) := PriceSearch(h, i).value;
      a + 3 <= b && IsDigit(h[a]) && CurrencyAt(h, b - 2)
  {
    var (a, b) := PriceSearch(h, i).value;
    MatchEndAtIsShortest(h, a);
    TokenIsFound(h, a, b);
    var e := NumberEnd(h, a).value;
    assert a < e;
    assert MatchEndAt(h, a) == Some(SpaceEnd(h, e) + 2);
  }

  /** `m.group(0)` of the raw-markup search over the whole page, or `None`
      when nothing on the page matches. */
  function RawPriceMatch(h: string): (r: Option<string>)
    ensures r.None? <==> NoTokenFrom(h, 0)
    ensures r.Some? ==> |r.value| >= 3 && IsDigit(r.value[0]) && EndsInMarker(r.value)
  {
    match PriceSearch(h, 0)
    case None => None
    case Some((a, b)) =>
      SearchEndsAtMarker(h, 0);
      MarkerSlice(h, a, b);
      Some(h[a..b])
  }

  /** A span that starts at a digit and ends in a marker, cut out of `h`. */
  lemma MarkerSlice(h: string, a: nat, b: nat)
    requires a + 3 <= b <= |h| && IsDigit(h[a]) && CurrencyAt(h, b - 2)
    ensures |h[a..b]| >= 3 && IsDigit(h[a..b][0]) && EndsInMarker(h[a..b])
  {
    assert h[a..b][b - a - 2] == h[b - 2] && h[a..b][b - a - 1] == h[b - 1];
  }

  /** Every match begins with a digit and ends in a currency marker. */
  lemma TokenShape(u: string)
    requires IsPriceToken(u)
    ensures |u| >= 3 && IsDigit(u[0])
    ensures (IsK(u[|u| - 2]) && IsR(u[|u| - 1])) || (u[|u| - 2] == ',' && u[|u| - 1] == '-')
      || (IsK(u[|u| - 3]) && IsR(u[|u| - 2]) && u[|u| - 1] == '.')
  {
    var e, w :| 0 <= e <= w <= |u| && IsNumber(u[..e]) && AllSpace(u[e..w]) && IsCurrency(u[w..]);
    if IsPlain(u[..e]) {
      assert u[..e][0] == u[0];
    } else {
      var k :| 1 <= k <= 3 && k <= |u[..e]| && AllDigits(u[..e][..k]) && IsGroups(u[..e][k..]);
      assert u[..e][..k][0] == u[0];
    }
    assert u[w..][0] == u[w];
  }

  // ---------------------------------------------------------------------------
  // extract_int

  /** `re.sub(r'[.\s]', '', s)`: the characters of `s` that are not separators, in order. */
  function RemoveSeps(s: string): (r: string)
    ensures |r| <= |s|
    ensures forall k :: 0 <= k < |r| ==> !IsSep(r[k])
    ensures (forall k :: 0 <= k < |s| ==> IsDigit(s[k]) || IsSep(s[k])) ==> AllDigits(r)
    ensures |s| > 0 && !IsSep(s[0]) ==> |r| > 0 && r[0] == s[0]
    ensures (forall k :: 0 <= k < |s| ==> !IsSep(s[k])) ==> r == s
    ensures |s| == 1 && IsSep(s[0]) ==> r == []
  {
    if s == [] then []
    else if IsSep(s[0]) then RemoveSeps(s[1..])
    else [s[0]] + RemoveSeps(s[1..])
  }

  /** The index of the first digit of `t`, if any. */
  function FirstDigit(t: string, i: nat): (r: Option<nat>)
    requires i <= |t|
    ensures r.None? ==> forall k :: i <= k < |t| ==> !IsDigit(t[k])
    ensures r.Some? ==> i <= r.value < |t| && IsDigit(t[r.value])
    ensures r.Some? ==> forall k :: i <= k < r.value ==> !IsDigit(t[k])
    decreases |t| - i
  {
    if i == |t| then None else if IsDigit(t[i]) then Some(i) else FirstDigit(t, i + 1)
  }

  /** `t[i..j]` is the match `re.search` returns for `\d{1,3}(?:[.\s]\d{3})*|\d{3,6}`:
      it starts at the first digit (where the first alternative always
      succeeds, so `\d{3,6}` is never tried) and, nothing following the group,
      is the longest string of the first alternative's language there. */
  ghost predicate NumberMatch(t: string, i: int, j: int) {
    && 0 <= i < j <= |t|
    && IsDigit(t[i]) && (forall k :: 0 <= k < i ==> !IsDigit(t[k]))
    && IsGrouped(t[i..j])
    && (forall q :: j < q <= |t| ==> !IsGrouped(t[i..q]))
  }

  /** The text `extract_int` searches: no-break spaces become spaces. */
  function Normalised(s: string): (r: string)
    ensures |r| == |s|
    ensures forall k :: 0 <= k < |r| ==> r[k] != NBSP
    ensures forall k :: 0 <= k < |s| && s[k] != NBSP ==> r[k] == s[k]
  {
    ReplaceChar(s, NBSP, ' ')
  }

  /** `v` is what `extract_int` computes from the text `t`: the number spelled
      by the digits of the `re.search` match. */
  ghost predicate ValueOfMatch(t: string, v: int) {
    exists i, j :: NumberMatch(t, i, j) && IsDigitString(RemoveSeps(t[i..j]))
      && v == DecimalValue(RemoveSeps(t[i..j]))
  }

  /** The match `re.search` returns in `t` spells more digits than `int()`
      converts, so `int()` raises. */
  ghost predicate TooManyDigits(t: string) {
    exists i, j :: NumberMatch(t, i, j) && |RemoveSeps(t[i..j])| > MaxIntDigits
  }

  /** A text has at most one `re.search` match. */
  lemma NumberMatchUnique(t: string, i: int, j: int, i': int, j': int)
    requires NumberMatch(t, i, j) && NumberMatch(t, i', j')
    ensures i == i' && j == j'
  {
  }

  lemma NormalisedKeepsDigits(s: string)
    ensures |Normalised(s)| == |s|
    ensures forall k :: 0 <= k < |s| ==> (IsDigit(Normalised(s)[k]) <==> IsDigit(s[k]))
  {
  }

  /** The greedy match taken from the first digit is `re.search`'s match, and
      it consists of digits and separators only, beginning with a digit. */
  lemma GreedyIsNumberMatch(t: string, i: nat)
    requires FirstDigit(t, 0) == Some(i)
    ensures NumberMatch(t, i, GroupedEnd(t, i))
    ensures IsDigitString(RemoveSeps(t[i..GroupedEnd(t, i)]))
  {
    GroupedEndIsLongest(t, i);
    GreedyDigits(t, i);
  }

  lemma GreedyDigits(t: string, i: nat)
    requires i < |t| && IsDigit(t[i])
    ensures IsDigitString(RemoveSeps(t[i..GroupedEnd(t, i)]))
  {
    var j := GroupedEnd(t, i);
    var run := DigitRun(t, i);
    var k := if run < 3 then run else 3;
    GroupsEndIsGroups(t, i + k);
    var a, g := t[i..i + k], t[i + k..j];
    assert t[i..j] == a + g;
    assert forall m :: 0 <= m < k ==> a[m] == t[i + m];
    WrittenNumberDigits(t[i..j], a, g);
  }

  /** `extract_int(s)`: `None` for `None`, for the empty string, for a text
      without a digit and for a match spelling more than `MaxIntDigits` digits
      (where `int()` raises and the `except` branch answers `None`); otherwise
      the non-negative integer spelled by the match once separators are removed. */
  function ExtractInt(s: Option<string>): (r: Option<int>)
    ensures s.None? || (forall k :: 0 <= k < |s.value| ==> !IsDigit(s.value[k])) ==> r.None?
    ensures r.Some? ==> r.value >= 0 && ValueOfMatch(Normalised(s.value), r.value)
  {
    if s.None? || s.value == "" then None
    else
      var t := Normalised(s.value);
      NormalisedKeepsDigits(s.value);
      match FirstDigit(t, 0)
      case None => None
      case Some(i) =>
        GreedyIsNumberMatch(t, i);
        ParseDecimal(RemoveSeps(t[i..GroupedEnd(t, i)]))
  }

  /** When `extract_int` answers `None`: exactly for `None`, for a text without
      a digit, and for a match with more digits than `int()` converts. */
  lemma ExtractIntNone(s: Option<string>)
    ensures ExtractInt(s).None? <==>
      || s.None?
      || (forall k :: 0 <= k < |s.value| ==> !IsDigit(s.value[k]))
      || TooManyDigits(Normalised(s.value))
  {
    if s.Some? && s.value != "" {
      var t := Normalised(s.value);
      NormalisedKeepsDigits(s.value);
      if FirstDigit(t, 0).Some? {
        var i := FirstDigit(t, 0).value;
        GreedyIsNumberMatch(t, i);
        ExtractIntLimit(t, i);
      }
    }
  }

  /** `int()` raises on the match exactly when it has too many digits. */
  lemma ExtractIntLimit(t: string, i: nat)
    requires i < |t| && IsDigit(t[i])
    requires NumberMatch(t, i, GroupedEnd(t, i))
    ensures TooManyDigits(t) <==> |RemoveSeps(t[i..GroupedEnd(t, i)])| > MaxIntDigits
  {
    var j := GroupedEnd(t, i);
    if TooManyDigits(t) {
      var i', j' :| NumberMatch(t, i', j') && |RemoveSeps(t[i'..j'])| > MaxIntDigits;
      NumberMatchUnique(t, i, j, i', j');
    }
  }

  /** A text of at most `MaxIntDigits` characters with a digit in it always
      yields a number. */
  lemma ShortTextYieldsNumber(s: string)
    requires |s| <= MaxIntDigits
    requires exists k :: 0 <= k < |s| && IsDigit(s[k])
    ensures ExtractInt(Some(s)).Some?
  {
    var t := Normalised(s);
    ExtractIntNone(Some(s));
    forall i, j | NumberMatch(t, i, j)
      ensures |RemoveSeps(t[i..j])| <= MaxIntDigits
    {
      assert |t[i..j]| <= |t|;
    }
  }

  /** `price_text`: the price element's text when it is a non-empty string,
      otherwise the raw-markup match, otherwise `None`. */
  function PriceText(elementText: Option<string>, html: string): Option<string> {
    if elementText.Some? && elementText.value != "" then elementText else RawPriceMatch(html)
  }

  /** The fallback chain for the price text: the element's text when it is
      non-empty; otherwise the leftmost, shortest raw-markup match, which
      begins with a digit, ends in `kr` or `,-` and yields a number unless its
      digits exceed `int()`'s limit; with neither there is no price. */
  lemma PriceTextChain(elementText: Option<string>, html: string)
    ensures elementText.Some? && elementText.value != "" ==> PriceText(elementText, html) == elementText
    ensures (elementText.None? || elementText.value == "") && !NoTokenFrom(html, 0) ==>
      && PriceSearch(html, 0).Some?
      && FirstTokenFrom(html, 0, PriceSearch(html, 0).value.0, PriceSearch(html, 0).value.1)
      && PriceText(elementText, html) == Some(html[PriceSearch(html, 0).value.0..PriceSearch(html, 0).value.1])
      && IsDigit(PriceText(elementText, html).value[0])
      && EndsInMarker(PriceText(elementText, html).value)
      && (ExtractInt(PriceText(elementText, html)).None? <==> TooManyDigits(Normalised(PriceText(elementText, html).value)))
    ensures (elementText.None? || elementText.value == "") && NoTokenFrom(html, 0) ==>
      PriceText(elementText, html).None? && ExtractInt(PriceText(elementText, html)).None?
  {
    if (elementText.None? || elementText.value == "") && !NoTokenFrom(html, 0) {
      var m := PriceSearch(html, 0);
      var u := html[m.value.0..m.value.1];
      assert RawPriceMatch(html) == Some(u);
      assert IsDigit(u[0]);
      ExtractIntNone(Some(u));
    }
  }

  /** The `\d{3,6}` alternative of `extract_int` never decides the number:
      four or more adjacent digits yield only their first three. */
  lemma UngroupedDigitsTruncate(s: string)
    requires |s| >= 4 && IsDigit(s[0]) && IsDigit(s[1]) && IsDigit(s[2]) && IsDigit(s[3])
    ensures ExtractInt(Some(s)) == Some(DecimalValue(s[..3]))
  {
    var t := Normalised(s);
    assert t[0] == s[0] && t[1] == s[1] && t[2] == s[2] && t[3] == s[3];
    assert FirstDigit(t, 0) == Some(0);
    assert DigitRun(t, 0) >= 4;
    assert GroupedEnd(t, 0) == 3;
    assert t[0..3] == s[..3];
    assert RemoveSeps(s[..3]) == s[..3];
  }

  /** Dropping separators works piece by piece. */
  lemma {:induction false} RemoveSepsAppend(x: string, y: string)
    ensures RemoveSeps(x + y) == RemoveSeps(x) + RemoveSeps(y)
  {
    if x != [] {
      assert (x + y)[1..] == x[1..] + y;
      RemoveSepsAppend(x[1..], y);
    } else {
      assert x + y == y;
    }
  }

  /** No `[.\s]\d{3}` group starts a text. */
  predicate NoGroupAhead(rest: string) {
    !(|rest| >= 4 && IsSep(rest[0]) && IsDigit(rest[1]) && IsDigit(rest[2]) && IsDigit(rest[3]))
  }

  /** `extract_int` on a text that begins with a written number: one to three
      digits `a`, then whole separator-plus-three-digit groups `g`, then a tail
      that starts no further group (and no further digit, unless `a` already
      has three). The result is the number spelled by `a` and the digits of
      `g`: "1.250 kr" gives 1250, "12 345" gives 12345, "99kr." gives 99 and
      "1250" gives 125; beyond `MaxIntDigits` digits `int()` raises and gives `None`. No-break spaces are left out here; `ExtractInt` covers
      them. */
  lemma WrittenNumberValue(a: string, g: string, rest: string)
    requires 1 <= |a| <= 3 && AllDigits(a) && IsGroups(g)
    requires NoGroupAhead(rest)
    requires |a| == 3 || g != [] || rest == [] || !IsDigit(rest[0])
    requires forall k :: 0 <= k < |a + g + rest| ==> (a + g + rest)[k] != NBSP
    ensures IsDigitString(a + RemoveSeps(g))
    ensures |a + RemoveSeps(g)| <= MaxIntDigits ==>
      ExtractInt(Some(a + g + rest)) == Some(DecimalValue(a + RemoveSeps(g)))
    ensures |a + RemoveSeps(g)| > MaxIntDigits ==> ExtractInt(Some(a + g + rest)).None?
  {
    var s := a + g + rest;
    NoNbspNormalised(s);
    WrittenNumberEnd(s, a, g, rest);
    WrittenNumberDigits(s, a, g);
  }

  lemma NoNbspNormalised(s: string)
    requires forall k :: 0 <= k < |s| ==> s[k] != NBSP
    ensures Normalised(s) == s
  {
    assert forall k :: 0 <= k < |s| ==> Normalised(s)[k] == s[k];
  }

  /** Where the greedy match of a written number stops. */
  lemma WrittenNumberEnd(s: string, a: string, g: string, rest: string)
    requires s == a + g + rest
    requires 1 <= |a| <= 3 && AllDigits(a) && IsGroups(g)
    requires NoGroupAhead(rest)
    requires |a| == 3 || g != [] || rest == [] || !IsDigit(rest[0])
    ensures FirstDigit(s, 0) == Some(0)
    ensures GroupedEnd(s, 0) == |a| + |g|
  {
    var e := |a| + |g|;
    assert s[0] == a[0];
    assert forall k :: 0 <= k < |a| ==> s[k] == a[k];
    DigitsWithinRun(s, 0, |a|);
    assert DigitRun(s, 0) >= 3 || DigitRun(s, 0) == |a| by {
      if |a| < 3 && |a| < |s| {
        assert s[|a|] == (if g != [] then g[0] else rest[0]);
      }
    }
    assert s[|a|..e] == g;
    GroupsBound(s, |a|, e);
    assert !GroupAt(s, e) by {
      if e + 4 <= |s| {
        assert s[e] == rest[0] && s[e + 1] == rest[1] && s[e + 2] == rest[2] && s[e + 3] == rest[3];
      }
    }
  }

  /** The digits a written number spells. */
  lemma WrittenNumberDigits(s: string, a: string, g: string)
    requires |a| + |g| <= |s| && s[..|a| + |g|] == a + g
    requires AllDigits(a) && |a| >= 1 && IsGroups(g)
    ensures RemoveSeps(s[0..|a| + |g|]) == a + RemoveSeps(g)
    ensures IsDigitString(a + RemoveSeps(g))
  {
    assert s[0..|a| + |g|] == a + g;
    RemoveSepsAppend(a, g);
    DigitsHaveNoSeps(a);
    GroupsChars(g);
    AllDigitsAppend(a, RemoveSeps(g));
  }

  lemma DigitsHaveNoSeps(a: string)
    requires AllDigits(a)
    ensures RemoveSeps(a) == a
  {
    assert forall k :: 0 <= k < |a| ==> !IsSep(a[k]);
  }

  /** Groups consist of separators and digits, so dropping the separators
      leaves digits. */
  lemma GroupsChars(g: string)
    requires IsGroups(g)
    ensures AllDigits(RemoveSeps(g))
  {
    forall k | 0 <= k < |g|
      ensures IsDigit(g[k]) || IsSep(g[k])
    {
      if k % 4 == 0 {
        assert IsSep(g[k]);
      } else {
        assert IsDigit(g[k]);
      }
    }
  }

  lemma AllDigitsAppend(x: string, y: string)
    requires AllDigits(x) && AllDigits(y)
    ensures AllDigits(x + y)
  {
    assert forall k :: 0 <= k < |x + y| ==> (x + y)[k] == if k < |x| then x[k] else y[k - |x|];
  }
}
