/** The JavaScript built-ins the TypeScript code calls on strings and arrays,
    restricted to what the code needs: `toLowerCase` (ASCII letters only),
    `indexOf` / `includes`, `replace` with a string pattern, `trim`, number to
    decimal string, and `Array.prototype.sort` without a comparator, which
    orders numbers by their decimal strings. */
module JsBuiltins {

  // ---------------------------------------------------------------- case

  function LowerChar(c: char): char {
    if 'A' <= c <= 'Z' then (c as int + 32) as char else c
  }

  /** `s.toLowerCase()` on the ASCII letters. */
  function Lower(s: string): (r: string)
    ensures |r| == |s|
    ensures forall i :: 0 <= i < |s| ==> r[i] == LowerChar(s[i])
  {
    seq(|s|, i requires 0 <= i < |s| => LowerChar(s[i]))
  }

  lemma {:induction false} LowerIdempotent(s: string)
    ensures Lower(Lower(s)) == Lower(s)
  {
    assert forall i :: 0 <= i < |s| ==> LowerChar(LowerChar(s[i])) == LowerChar(s[i]);
  }

  // ------------------------------------------------------------- search

  /** `pat` occurs in `s` starting at index `i`. */
  predicate OccursAt(s: string, pat: string, i: int) {
    0 <= i && i + |pat| <= |s| && s[i..i + |pat|] == pat
  }

  function IndexOfFrom(s: string, pat: string, k: nat): (r: int)
    ensures r == -1 || (k <= r && OccursAt(s, pat, r))
    ensures forall i :: k <= i && (r == -1 || i < r) ==> !OccursAt(s, pat, i)
    decreases |s| - k
  {
    if k + |pat| > |s| then -1
    else if s[k..k + |pat|] == pat then k
    else IndexOfFrom(s, pat, k + 1)
  }

  /** `s.indexOf(pat)`: the first index at which `pat` occurs, or -1. */
  function IndexOf(s: string, pat: string): (r: int)
    ensures r == -1 <==> forall i :: !OccursAt(s, pat, i)
    ensures r != -1 ==> OccursAt(s, pat, r) && forall i :: 0 <= i < r ==> !OccursAt(s, pat, i)
  {
    IndexOfFrom(s, pat, 0)
  }

  /** `s.includes(pat)`. */
  function Includes(s: string, pat: string): (b: bool)
    ensures b <==> exists i :: OccursAt(s, pat, i)
  {
    IndexOf(s, pat) != -1
  }

  /** `s.replace(pat, rep)` with a string `pat`: only the first occurrence is
      replaced, and `s` comes back unchanged when `pat` does not occur. */
  function ReplaceFirst(s: string, pat: string, rep: string): (r: string)
    ensures !Includes(s, pat) ==> r == s
    ensures Includes(s, pat) ==> |r| == |s| - |pat| + |rep|
    ensures rep == pat ==> r == s
  {
    var i := IndexOf(s, pat);
    assert i != -1 ==> s[..i] + s[i..i + |pat|] + s[i + |pat|..] == s;
    if i == -1 then s else s[..i] + rep + s[i + |pat|..]
  }

  /** `replace` acts at the first occurrence of the pattern. */
  lemma {:induction false} ReplaceFirstAt(s: string, pat: string, rep: string, i: int)
    requires OccursAt(s, pat, i) && forall j :: 0 <= j < i ==> !OccursAt(s, pat, j)
    ensures ReplaceFirst(s, pat, rep) == s[..i] + rep + s[i + |pat|..]
  {
  }

  /** `replace` leaves a string without the pattern unchanged. */
  lemma {:induction false} ReplaceFirstAbsent(s: string, pat: string, rep: string)
    requires forall i :: !OccursAt(s, pat, i)
    ensures ReplaceFirst(s, pat, rep) == s
  {
  }

  // ------------------------------------------------------ UTF-16 lengths

  /** JavaScript strings are sequences of UTF-16 code units: a character
      above U+FFFF takes two of them (a surrogate pair). */
  function Utf16Units(c: char): (n: nat)
    ensures n == 1 || n == 2
  {
    if c as int >= 0x1_0000 then 2 else 1
  }

  /** The `length` of `s` as a JavaScript string. */
  function Utf16Length(s: string): (n: nat)
    ensures |s| <= n <= 2 * |s|
  {
    if s == [] then 0 else Utf16Length(s[..|s| - 1]) + Utf16Units(s[|s| - 1])
  }

  /** Without characters above U+FFFF, the JavaScript length is the length. */
  lemma {:induction false} Utf16LengthBmp(s: string)
    requires forall k :: 0 <= k < |s| ==> s[k] as int < 0x1_0000
    ensures Utf16Length(s) == |s|
    decreases |s|
  {
    if s != [] {
      var init := s[..|s| - 1];
      assert forall k :: 0 <= k < |init| ==> init[k] == s[k];
      Utf16LengthBmp(init);
    }
  }

  /** Lower-casing keeps every character's code-unit count. */
  lemma {:induction false} Utf16LengthLower(s: string)
    ensures Utf16Length(Lower(s)) == Utf16Length(s)
    decreases |s|
  {
    if s != [] {
      var init := s[..|s| - 1];
      assert Lower(s)[..|s| - 1] == Lower(init);
      Utf16LengthLower(init);
    }
  }

  // --------------------------------------------------------------- trim

  /** ECMAScript's WhiteSpace and LineTerminator code points, the set `trim` strips. */
  predicate IsWhitespace(c: char) {
    || c == ' ' || c == '\t' || c == '\n' || c == '\r' || c == '\U{000B}' || c == '\U{000C}'
    || c == '\U{00A0}' || c == '\U{1680}' || ('\U{2000}' <= c <= '\U{200A}')
    || c == '\U{2028}' || c == '\U{2029}' || c == '\U{202F}' || c == '\U{205F}'
    || c == '\U{3000}' || c == '\U{FEFF}'
  }

  /** Number of leading whitespace characters. */
  function LeadingSpace(s: string): (a: nat)
    ensures a <= |s|
    ensures forall k :: 0 <= k < a ==> IsWhitespace(s[k])
    ensures a < |s| ==> !IsWhitespace(s[a])
  {
    if s == [] || !IsWhitespace(s[0]) then 0 else 1 + LeadingSpace(s[1..])
  }

  /** Length of `s` without its trailing whitespace. */
  function TrailingCut(s: string): (b: nat)
    ensures b <= |s|
    ensures forall k :: b <= k < |s| ==> IsWhitespace(s[k])
    ensures 0 < b ==> !IsWhitespace(s[b - 1])
  {
    if s == [] || !IsWhitespace(s[|s| - 1]) then |s| else TrailingCut(s[..|s| - 1])
  }

  /** `s.trim()`: the longest middle part of `s` that neither starts nor ends
      with whitespace; only whitespace is cut off on either side. */
  function Trim(s: string): (r: string)
    ensures r == [] || (!IsWhitespace(r[0]) && !IsWhitespace(r[|r| - 1]))
    ensures LeadingSpace(s) + |r| <= |s| && r == s[LeadingSpace(s)..LeadingSpace(s) + |r|]
    ensures forall k :: LeadingSpace(s) + |r| <= k < |s| ==> IsWhitespace(s[k])
  {
    var a := LeadingSpace(s);
    var t := s[a..];
    var b := TrailingCut(t);
    assert forall k :: a + b <= k < |s| ==> s[k] == t[k - a];
    assert t[..b] == s[a..a + b];
    t[..b]
  }

  // ----------------------------------------------------- number strings

  function DigitChar(d: nat): (c: char)
    requires d < 10
    ensures '0' <= c <= '9'
  {
    ('0' as int + d) as char
  }

  /** Decimal digits of a natural number, most significant first. */
  function NatDigits(n: nat): (r: string)
    ensures |r| >= 1
    ensures forall i :: 0 <= i < |r| ==> '0' <= r[i] <= '9'
  {
    if n < 10 then [DigitChar(n)] else NatDigits(n / 10) + [DigitChar(n % 10)]
  }

  /** `String(n)` for an integer `n`. */
  function DecimalString(n: int): string {
    if n < 0 then "-" + NatDigits(-n) else NatDigits(n)
  }

  // ---------------------------------------------------- string ordering

  /** `a < b` on strings: lexicographic by character code. */
  predicate StrLess(a: string, b: string) {
    if a == [] then b != []
    else if b == [] then false
    else if a[0] != b[0] then a[0] < b[0]
    else StrLess(a[1..], b[1..])
  }

  lemma {:induction false} StrLessIrreflexive(a: string)
    ensures !StrLess(a, a)
  {
    if a != [] { StrLessIrreflexive(a[1..]); }
  }

  lemma {:induction false} StrLessTotal(a: string, b: string)
    ensures a == b || StrLess(a, b) || StrLess(b, a)
  {
    if a != [] && b != [] && a[0] == b[0] {
      StrLessTotal(a[1..], b[1..]);
      if a[1..] == b[1..] { assert a == [a[0]] + a[1..] && b == [b[0]] + b[1..]; }
    }
  }

  lemma {:induction false} StrLessAsymmetric(a: string, b: string)
    ensures !(StrLess(a, b) && StrLess(b, a))
  {
    if a != [] && b != [] && a[0] == b[0] { StrLessAsymmetric(a[1..], b[1..]); }
  }

  lemma {:induction false} StrLessTransitive(a: string, b: string, c: string)
    requires StrLess(a, b) && StrLess(b, c)
    ensures StrLess(a, c)
  {
    if a != [] && a[0] == b[0] && b[0] == c[0] {
      StrLessTransitive(a[1..], b[1..], c[1..]);
    }
  }

  // ------------------------------------------------------- default sort

  /** The order `sort()` puts numbers in: `x` may precede `y` unless the
      decimal string of `y` is smaller than that of `x`. */
  predicate SortLe(x: int, y: int) {
    !StrLess(DecimalString(y), DecimalString(x))
  }

  lemma {:induction false} SortLeTotal(x: int, y: int)
    ensures SortLe(x, y) || SortLe(y, x)
  {
    StrLessAsymmetric(DecimalString(x), DecimalString(y));
  }

  lemma {:induction false} SortLeTransitive(x: int, y: int, z: int)
    requires SortLe(x, y) && SortLe(y, z)
    ensures SortLe(x, z)
  {
    var a, b, c := DecimalString(x), DecimalString(y), DecimalString(z);
    if StrLess(c, a) {
      StrLessTotal(a, b);
      if StrLess(a, b) { StrLessTransitive(c, a, b); }
    }
  }

  ghost predicate SortedForSort(s: seq<int>) {
    SortedBy(SortLe, s)
  }

  function Insert(x: int, s: seq<int>): (r: seq<int>)
    ensures multiset(r) == multiset(s) + multiset{x}
  {
    if s == [] then [x]
    else if StrLess(DecimalString(x), DecimalString(s[0])) then [x] + s
    else
      assert s == [s[0]] + s[1..];
      [s[0]] + Insert(x, s[1..])
  }

  lemma {:induction false} InsertSortedFront(x: int, s: seq<int>)
    requires SortedForSort(s) && s != [] && SortLe(x, s[0])
    ensures SortedForSort([x] + s)
  {
    SortLeIsTransitive();
    SortedFront(SortLe, x, s);
  }

  lemma {:induction false} InsertSortedBehind(h: int, rest: seq<int>, tail: seq<int>, x: int)
    requires SortedForSort(rest) && SortLe(h, x)
    requires forall k :: 0 <= k < |tail| ==> SortLe(h, tail[k])
    requires multiset(rest) == multiset(tail) + multiset{x}
    ensures SortedForSort([h] + rest)
  {
    SortedBehind(SortLe, h, rest, tail, x);
  }

  lemma {:induction false} SortLeIsTransitive()
    ensures forall x, y, z :: SortLe(x, y) && SortLe(y, z) ==> SortLe(x, z)
  {
    forall x, y, z | SortLe(x, y) && SortLe(y, z) ensures SortLe(x, z) {
      SortLeTransitive(x, y, z);
    }
  }

  /** `s` is ordered by `le` pairwise. */
  ghost predicate SortedBy(le: (int, int) -> bool, s: seq<int>) {
    forall i, j :: 0 <= i < j < |s| ==> le(s[i], s[j])
  }

  lemma {:induction false} SortedFront(le: (int, int) -> bool, x: int, s: seq<int>)
    requires forall a, b, c :: le(a, b) && le(b, c) ==> le(a, c)
    requires SortedBy(le, s) && s != [] && le(x, s[0])
    ensures SortedBy(le, [x] + s)
  {
    var r := [x] + s;
    forall i, j | 0 <= i < j < |r| ensures le(r[i], r[j]) {
      if i == 0 {
        assert r[0] == x && r[j] == s[j - 1];
        if j > 1 {
          var y, z := s[0], s[j - 1];
          assert le(x, y) && le(y, z);
        } else {
          assert r[1] == s[0];
        }
      } else {
        assert r[i] == s[i - 1] && r[j] == s[j - 1];
      }
    }
  }

  lemma {:induction false} SortedBehind(le: (int, int) -> bool, h: int, rest: seq<int>, tail: seq<int>, x: int)
    requires SortedBy(le, rest) && le(h, x)
    requires forall k :: 0 <= k < |tail| ==> le(h, tail[k])
    requires multiset(rest) == multiset(tail) + multiset{x}
    ensures SortedBy(le, [h] + rest)
  {
    var r := [h] + rest;
    forall j | 0 <= j < |rest| ensures le(h, rest[j]) {
      var y := rest[j];
      assert y in multiset(rest);
      if y != x {
        assert y in multiset(tail);
        var k :| 0 <= k < |tail| && tail[k] == y;
      }
    }
    forall i, j | 0 <= i < j < |r| ensures le(r[i], r[j]) {
      if i == 0 {
        assert r[j] == rest[j - 1];
      } else {
        assert r[i] == rest[i - 1] && r[j] == rest[j - 1];
      }
    }
  }

  lemma {:induction false} InsertSorted(x: int, s: seq<int>)
    requires SortedForSort(s)
    ensures SortedForSort(Insert(x, s))
  {
    if s == [] {
    } else if StrLess(DecimalString(x), DecimalString(s[0])) {
      StrLessAsymmetric(DecimalString(x), DecimalString(s[0]));
      InsertSortedFront(x, s);
    } else {
      InsertSorted(x, s[1..]);
      SortLeTotal(x, s[0]);
      InsertSortedBehind(s[0], Insert(x, s[1..]), s[1..], x);
    }
  }

  /** `xs.sort()` on numbers: an insertion sort by decimal string. */
  function DefaultSort(s: seq<int>): (r: seq<int>)
    ensures multiset(r) == multiset(s)
    ensures SortedForSort(r)
  {
    if s == [] then []
    else
      assert s == [s[0]] + s[1..];
      var t := DefaultSort(s[1..]);
      InsertSorted(s[0], t);
      Insert(s[0], t)
  }

  /** A four-digit year's decimal string is its four digits. */
  lemma {:induction false} FourDigits(n: int)
    requires 1000 <= n <= 9999
    ensures DecimalString(n) == [DigitChar(n / 10 / 10 / 10), DigitChar(n / 10 / 10 % 10), DigitChar(n / 10 % 10), DigitChar(n % 10)]
  {
    var q1 := n / 10;
    var q2 := q1 / 10;
    assert 100 <= q1 <= 999 && 10 <= q2 <= 99 && 1 <= q2 / 10 <= 9;
    assert NatDigits(n) == NatDigits(q1) + [DigitChar(n % 10)];
    assert NatDigits(q1) == NatDigits(q2) + [DigitChar(q1 % 10)];
    assert NatDigits(q2) == [DigitChar(q2 / 10)] + [DigitChar(q2 % 10)];
  }

  lemma {:induction false} StrLessFour(a: string, b: string)
    requires |a| == 4 && |b| == 4
    ensures StrLess(a, b) <==>
      a[0] < b[0] || (a[0] == b[0] && (a[1] < b[1] || (a[1] == b[1] && (a[2] < b[2] || (a[2] == b[2] && a[3] < b[3])))))
  {
    var a1, b1 := a[1..], b[1..];
    var a2, b2 := a1[1..], b1[1..];
    var a3, b3 := a2[1..], b2[1..];
    assert a3[1..] == [] && b3[1..] == [];
    assert StrLess(a3, b3) <==> a[3] < b[3];
    assert StrLess(a2, b2) <==> a[2] < b[2] || (a[2] == b[2] && a[3] < b[3]);
  }

  lemma {:induction false} DigitsValue(n: int)
    requires 1000 <= n <= 9999
    ensures n == 1000 * (n / 10 / 10 / 10) + 100 * (n / 10 / 10 % 10) + 10 * (n / 10 % 10) + n % 10
    ensures n / 10 / 10 / 10 < 10
  {
    var q1 := n / 10;
    var q2 := q1 / 10;
    assert n == 10 * q1 + n % 10;
    assert q1 == 10 * q2 + q1 % 10;
    assert q2 == 10 * (q2 / 10) + q2 % 10;
  }

  lemma {:induction false} LexDigits(x3: nat, x2: nat, x1: nat, x0: nat, y3: nat, y2: nat, y1: nat, y0: nat)
    requires x3 < 10 && x2 < 10 && x1 < 10 && x0 < 10 && y3 < 10 && y2 < 10 && y1 < 10 && y0 < 10
    ensures (y3 < x3 || (y3 == x3 && (y2 < x2 || (y2 == x2 && (y1 < x1 || (y1 == x1 && y0 < x0)))))) <==>
            1000 * y3 + 100 * y2 + 10 * y1 + y0 < 1000 * x3 + 100 * x2 + 10 * x1 + x0
  {
  }

  /** For four-digit years the string order of `sort()` is numeric order. */
  lemma {:induction false} FourDigitSortLe(x: int, y: int)
    requires 1000 <= x <= 9999 && 1000 <= y <= 9999
    ensures SortLe(x, y) <==> x <= y
  {
    FourDigits(x);
    FourDigits(y);
    DigitsValue(x);
    DigitsValue(y);
    var a, b := DecimalString(x), DecimalString(y);
    StrLessFour(b, a);
    LexDigits(x / 10 / 10 / 10, x / 10 / 10 % 10, x / 10 % 10, x % 10, y / 10 / 10 / 10, y / 10 / 10 % 10, y / 10 % 10, y % 10);
  }
}
