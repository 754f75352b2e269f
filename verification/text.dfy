/**
 String helpers with Python's semantics: `str.isspace`, `str.strip`,
 slicing with an `int` bound, `sep.join`, `str.split` on one character,
 substring search and decimal rendering of integers.
 Strings are `seq<char>`; a `char` is one Unicode code point, as in Python 3.
 */
module Text {

  /** The characters Python's `str.isspace` (and therefore `\s`, `str.strip`
      and BeautifulSoup's `get_text(strip=True)`) treat as whitespace. */
  predicate IsSpace(c: char) {
    || ('\t' <= c <= '\r')
    || ('\U{1c}' <= c <= ' ')
    || c == '\U{85}' || c == '\U{a0}' || c == '\U{1680}'
    || ('\U{2000}' <= c <= '\U{200a}')
    || c == '\U{2028}' || c == '\U{2029}' || c == '\U{202f}'
    || c == '\U{205f}' || c == '\U{3000}'
  }

  /** An ASCII decimal digit (the model's reading of `\d`). */
  predicate IsDigit(c: char) {
    '0' <= c <= '9'
  }

  predicate AllDigits(s: string) {
    forall i :: 0 <= i < |s| ==> IsDigit(s[i])
  }

  function DigitValue(c: char): nat
    requires IsDigit(c)
  {
    c as int - '0' as int
  }

  function DigitChar(d: nat): (c: char)
    requires d < 10
    ensures IsDigit(c) && DigitValue(c) == d
  {
    (d + '0' as int) as char
  }

  /** Python's `int(s)` for a string of ASCII digits. */
  function DigitsValue(s: string): nat
    requires AllDigits(s)
  {
    if s == [] then 0 else DigitsValue(s[..|s| - 1]) * 10 + DigitValue(s[|s| - 1])
  }

  function Pow10(n: nat): nat {
    if n == 0 then 1 else 10 * Pow10(n - 1)
  }

  /** `str(n)` for a natural number: the shortest decimal rendering. */
  function NatToString(n: nat): (r: string)
    ensures |r| >= 1 && AllDigits(r)
    ensures DigitsValue(r) == n
    ensures |r| == 1 || r[0] != '0'
  {
    if n < 10 then [DigitChar(n)]
    else
      var prefix := NatToString(n / 10);
      assert (prefix + [DigitChar(n % 10)])[..|prefix|] == prefix;
      prefix + [DigitChar(n % 10)]
  }

  /** `str(n)` for any integer. */
  function IntToString(n: int): (r: string)
    ensures |r| >= 1
    ensures n >= 0 <==> r[0] != '-'
  {
    if n < 0 then "-" + NatToString(-n) else NatToString(n)
  }

  /** Two different natural numbers never render to the same text. */
  lemma NatToStringInjective(m: nat, n: nat)
    requires NatToString(m) == NatToString(n)
    ensures m == n
  {
  }

  /** `n` written with exactly `width` digits, zero-padded on the left
      (the `%04d` / `%02d` shape of a timestamp field). */
  function FixedDigits(n: nat, width: nat): (r: string)
    requires n < Pow10(width)
    ensures |r| == width && AllDigits(r)
    ensures DigitsValue(r) == n
  {
    if width == 0 then ""
    else
      var prefix := FixedDigits(n / 10, width - 1);
      assert (prefix + [DigitChar(n % 10)])[..|prefix|] == prefix;
      prefix + [DigitChar(n % 10)]
  }

  predicate StartsWith(s: string, prefix: string) {
    |prefix| <= |s| && s[..|prefix|] == prefix
  }

  predicate EndsWith(s: string, suffix: string) {
    |suffix| <= |s| && s[|s| - |suffix|..] == suffix
  }

  /** A concatenation starts with its first part and ends with its second. */
  lemma Ends(a: string, b: string)
    ensures StartsWith(a + b, a) && EndsWith(a + b, b)
  {
    assert (a + b)[..|a|] == a;
    assert (a + b)[|a + b| - |b|..] == b;
  }

  /** A concatenation of three starts with the first and ends with the last. */
  lemma Ends3(a: string, b: string, c: string)
    ensures StartsWith(a + b + c, a) && EndsWith(a + b + c, c)
  {
    assert (a + b + c)[..|a|] == a;
    assert (a + b + c)[|a + b + c| - |c|..] == c;
  }

  /** `sub` occurs in `s` starting at index `i`. */
  predicate OccursAt(s: string, sub: string, i: int) {
    0 <= i && i + |sub| <= |s| && s[i..i + |sub|] == sub
  }

  /** Python's `sub in s` for strings. */
  predicate Contains(s: string, sub: string) {
    exists i | 0 <= i <= |s| - |sub| :: OccursAt(s, sub, i)
  }

  lemma ContainsInSuffix(prefix: string, s: string, sub: string)
    requires Contains(s, sub)
    ensures Contains(prefix + s, sub)
  {
    var i :| 0 <= i <= |s| - |sub| && OccursAt(s, sub, i);
    assert (prefix + s)[|prefix| + i..|prefix| + i + |sub|] == s[i..i + |sub|];
    assert OccursAt(prefix + s, sub, |prefix| + i);
  }

  lemma ContainsInPrefix(s: string, suffix: string, sub: string)
    requires Contains(s, sub)
    ensures Contains(s + suffix, sub)
  {
    var i :| 0 <= i <= |s| - |sub| && OccursAt(s, sub, i);
    assert (s + suffix)[i..i + |sub|] == s[i..i + |sub|];
    assert OccursAt(s + suffix, sub, i);
  }

  /** A text contains whatever sits between its two ends. */
  lemma ContainsMiddle(a: string, sub: string, b: string)
    ensures Contains(a + sub + b, sub)
  {
    assert (a + sub + b)[|a|..|a| + |sub|] == sub;
    assert OccursAt(a + sub + b, sub, |a|);
  }

  function Min(a: int, b: int): int {
    if a <= b then a else b
  }

  /** Python's `s[:n]` for any integer `n`: a negative bound counts from the end. */
  function PyPrefix<T>(s: seq<T>, n: int): (r: seq<T>)
    ensures |r| <= |s| && r == s[..|r|]
    ensures n >= 0 ==> |r| == Min(n, |s|)
    ensures n < 0 ==> |r| == (if |s| + n > 0 then |s| + n else 0)
  {
    if n >= 0 then s[..Min(n, |s|)]
    else if |s| + n > 0 then s[..|s| + n]
    else []
  }

  /** `s[:limit] + "..." if len(s) > limit else s`: the shape both the detail
      parser and the blog formatter use for summaries. */
  function Ellipsize(s: string, limit: nat): (r: string)
    ensures |s| <= limit ==> r == s
    ensures |s| > limit ==> |r| == limit + 3 && r[..limit] == s[..limit] && r[limit..] == "..."
    ensures |r| <= limit + 3
  {
    if |s| > limit then s[..limit] + "..." else s
  }

  /** The bounds `[lo, hi)` of `s.strip()`: every character outside them is
      whitespace and the characters at both ends are not. */
  function StripBounds(s: string): (b: (nat, nat))
    ensures b.0 <= b.1 <= |s|
    ensures forall k :: 0 <= k < b.0 ==> IsSpace(s[k])
    ensures forall k :: b.1 <= k < |s| ==> IsSpace(s[k])
    ensures b.0 < b.1 ==> !IsSpace(s[b.0]) && !IsSpace(s[b.1 - 1])
    ensures b.0 == b.1 ==> b.0 == 0 && b.1 == 0
  {
    var lo := LeadingSpaces(s, 0);
    if lo == |s| then (0, 0)
    else (lo, TrailingEnd(s, lo, |s|))
  }

  /** The first index at or after `i` that is not whitespace (or `|s|`). */
  function LeadingSpaces(s: string, i: nat): (k: nat)
    requires i <= |s|
    ensures i <= k <= |s|
    ensures forall j :: i <= j < k ==> IsSpace(s[j])
    ensures k < |s| ==> !IsSpace(s[k])
    decreases |s| - i
  {
    if i == |s| || !IsSpace(s[i]) then i else LeadingSpaces(s, i + 1)
  }

  /** Whitespace from `i` up to a non-whitespace character at `j` is skipped exactly. */
  lemma {:induction false} LeadingSpacesOver(s: string, i: nat, j: nat)
    requires i <= j < |s|
    requires forall k :: i <= k < j ==> IsSpace(s[k])
    requires !IsSpace(s[j])
    ensures LeadingSpaces(s, i) == j
    decreases j - i
  {
    if i < j {
      LeadingSpacesOver(s, i + 1, j);
    }
  }

  /** The end of the last non-whitespace character in `s[lo..hi]`, given one exists at `lo`. */
  function TrailingEnd(s: string, lo: nat, hi: nat): (k: nat)
    requires lo < hi <= |s| && !IsSpace(s[lo])
    ensures lo < k <= hi
    ensures forall j :: k <= j < hi ==> IsSpace(s[j])
    ensures !IsSpace(s[k - 1])
    decreases hi
  {
    if !IsSpace(s[hi - 1]) then hi else TrailingEnd(s, lo, hi - 1)
  }

  /** Python's `s.strip()`. */
  function Strip(s: string): (r: string)
    ensures |r| <= |s|
    ensures r == [] || (!IsSpace(r[0]) && !IsSpace(r[|r| - 1]))
    ensures r == [] <==> forall k :: 0 <= k < |s| ==> IsSpace(s[k])
    ensures (forall k :: 0 <= k < |s| ==> !IsSpace(s[k])) ==> r == s
  {
    var b := StripBounds(s);
    s[b.0..b.1]
  }

  /** Stripping is idempotent. */
  lemma StripIdempotent(s: string)
    ensures Strip(Strip(s)) == Strip(s)
  {
    var r := Strip(s);
    var b := StripBounds(r);
    if r != [] {
      assert !IsSpace(r[0]) && !IsSpace(r[|r| - 1]);
    }
  }

  /** Python's `sep.join(parts)`. */
  function Join(parts: seq<string>, sep: string): string
  {
    if |parts| == 0 then ""
    else if |parts| == 1 then parts[0]
    else parts[0] + sep + Join(parts[1..], sep)
  }

  /** A joined text starts with its first part, followed by the separator
      when more parts follow. */
  lemma JoinHead(parts: seq<string>, sep: string)
    requires |parts| >= 2
    ensures StartsWith(Join(parts, sep), parts[0] + sep)
  {
    var tail := Join(parts[1..], sep);
    assert (parts[0] + sep + tail)[..|parts[0] + sep|] == parts[0] + sep;
  }

  /** A joined text ends with its last part. */
  lemma JoinCons(parts: seq<string>, sep: string)
    requires |parts| >= 2
    ensures Join(parts, sep) == parts[0] + sep + Join(parts[1..], sep)
  {
  }

  /** A join starts with its first part. */
  lemma JoinStarts(parts: seq<string>, sep: string)
    requires |parts| >= 1
    ensures StartsWith(Join(parts, sep), parts[0])
  {
    if |parts| >= 2 {
      JoinHead(parts, sep);
    }
  }

  /** A join of at least three parts starts with the first three. */
  lemma JoinFirstThree(parts: seq<string>, sep: string)
    requires |parts| >= 3
    ensures StartsWith(Join(parts, sep), parts[0] + sep + parts[1] + sep + parts[2])
  {
    var rest := parts[1..];
    JoinCons(parts, sep);
    JoinHead(rest, sep);
    var t := Join(rest, sep);
    var p := parts[0] + sep;
    var q := rest[0] + sep;
    assert t[..|q|] == q;
    JoinStarts(rest[1..], sep);
    var u := Join(rest[1..], sep);
    JoinCons(rest, sep);
    assert t == q + u;
    var w := p + q + parts[2];
    var whole := p + t;
    assert whole == p + q + u;
    assert u[..|parts[2]|] == parts[2];
    assert whole[..|w|] == w;
  }

  /** Neighbouring parts sit next to each other in the join, with one
      separator between them. */
  lemma {:induction false} JoinAdjacent(parts: seq<string>, sep: string, i: nat)
    requires i + 1 < |parts|
    ensures Contains(Join(parts, sep), parts[i] + sep + parts[i + 1])
  {
    var tail := Join(parts[1..], sep);
    assert Join(parts, sep) == parts[0] + sep + tail;
    if i == 0 {
      JoinStarts(parts[1..], sep);
      var pair := parts[0] + sep + parts[1];
      var s := parts[0] + sep + tail;
      assert s[..|pair|] == pair;
      assert OccursAt(s, pair, 0);
    } else {
      JoinAdjacent(parts[1..], sep, i - 1);
      ContainsInSuffix(parts[0] + sep, tail, parts[i] + sep + parts[i + 1]);
    }
  }

  lemma {:induction false} JoinLast(parts: seq<string>, sep: string)
    requires |parts| >= 1
    ensures EndsWith(Join(parts, sep), parts[|parts| - 1])
  {
    if |parts| >= 2 {
      JoinLast(parts[1..], sep);
      var tail := Join(parts[1..], sep);
      var whole := parts[0] + sep + tail;
      var last := parts[|parts| - 1];
      assert tail[|tail| - |last|..] == last;
      assert whole[|whole| - |last|..] == tail[|tail| - |last|..];
    }
  }

  lemma {:induction false} JoinSnoc(parts: seq<string>, last: string, sep: string)
    requires |parts| >= 1
    ensures Join(parts + [last], sep) == Join(parts, sep) + sep + last
  {
    if |parts| >= 2 {
      assert (parts + [last])[1..] == parts[1..] + [last];
      JoinSnoc(parts[1..], last, sep);
    }
  }

  /** The index of the first `c` in `s`. */
  function IndexOf(s: string, c: char): (k: nat)
    requires c in s
    ensures k < |s| && s[k] == c && c !in s[..k]
  {
    if s[0] == c then 0
    else
      var k := IndexOf(s[1..], c);
      assert s[1..][..k] == s[1..k + 1];
      1 + k
  }

  /** Python's `s.split(c)` for a one-character separator: the pieces
      contain no separator and joining them back gives `s`. */
  function Split(s: string, c: char): (r: seq<string>)
    ensures |r| >= 1
    ensures forall i :: 0 <= i < |r| ==> c !in r[i]
    ensures Join(r, [c]) == s
    decreases |s|
  {
    if c !in s then [s]
    else
      var k := IndexOf(s, c);
      var rest := Split(s[k + 1..], c);
      assert s == s[..k] + [c] + s[k + 1..];
      [s[..k]] + rest
  }

  /** `s.replace(old, old + new)` for single characters: inserts `after`
      behind every occurrence of `c`. */
  function InsertAfterEach(s: string, c: char, after: char): (r: string)
    ensures |r| >= |s|
  {
    if s == [] then ""
    else if s[0] == c then [c, after] + InsertAfterEach(s[1..], c, after)
    else [s[0]] + InsertAfterEach(s[1..], c, after)
  }

  /** `s` with every occurrence of `c` removed. */
  function Remove(s: string, c: char): (r: string)
    ensures c !in r
    ensures |r| <= |s|
  {
    if s == [] then ""
    else if s[0] == c then Remove(s[1..], c)
    else [s[0]] + Remove(s[1..], c)
  }

  /** Stripping never introduces a character. */
  lemma StripKeepsOut(s: string, c: char)
    requires c !in s
    ensures c !in Strip(s)
  {
    var b := StripBounds(s);
    assert Strip(s) == s[b.0..b.1];
  }

  /** The insertion adds nothing but copies of `after`: removing them gives
      the same text as removing them from the original. */
  lemma {:induction false} InsertAfterEachRemove(s: string, c: char, after: char)
    requires c != after
    ensures Remove(InsertAfterEach(s, c, after), after) == Remove(s, after)
  {
    if s != [] {
      InsertAfterEachRemove(s[1..], c, after);
      if s[0] == c {
        var rest := InsertAfterEach(s[1..], c, after);
        assert ([c, after] + rest)[1..] == [after] + rest;
        assert ([after] + rest)[1..] == rest;
      }
    }
  }

  /** Every `c` in the result is directly followed by `after`. */
  lemma {:induction false} InsertAfterEachFollows(s: string, c: char, after: char, i: nat)
    requires c != after
    requires i < |InsertAfterEach(s, c, after)| && InsertAfterEach(s, c, after)[i] == c
    ensures i + 1 < |InsertAfterEach(s, c, after)| && InsertAfterEach(s, c, after)[i + 1] == after
  {
    var rest := InsertAfterEach(s[1..], c, after);
    if s[0] == c {
      if i >= 2 {
        InsertAfterEachFollows(s[1..], c, after, i - 2);
      }
    } else {
      if i >= 1 {
        InsertAfterEachFollows(s[1..], c, after, i - 1);
      }
    }
  }

  /** The concatenation of all parts. */
  function Concat(parts: seq<string>): string {
    if parts == [] then "" else parts[0] + Concat(parts[1..])
  }

  /** Python's `a or b or c` on strings: the first non-empty one, or the
      last (then empty) one when all are empty. */
  function FirstNonEmpty(xs: seq<string>): (r: string)
    requires |xs| >= 1
    ensures r == "" <==> forall i :: 0 <= i < |xs| ==> xs[i] == ""
    ensures r != "" ==> exists i :: 0 <= i < |xs| && xs[i] == r && forall j :: 0 <= j < i ==> xs[j] == ""
  {
    if |xs| == 1 || xs[0] != "" then xs[0]
    else
      var r := FirstNonEmpty(xs[1..]);
      assert forall i :: 1 <= i < |xs| ==> xs[i] == xs[1..][i - 1];
      r
  }

  /** Every part of a joined text occurs in it. */
  lemma {:induction false} JoinContains(parts: seq<string>, sep: string, i: nat)
    requires i < |parts|
    ensures Contains(Join(parts, sep), parts[i])
  {
    if |parts| == 1 {
      assert OccursAt(Join(parts, sep), parts[i], 0);
    } else if i == 0 {
      var s := Join(parts, sep);
      assert s[..|parts[0]|] == parts[0];
      assert OccursAt(s, parts[0], 0);
    } else {
      JoinContains(parts[1..], sep, i - 1);
      ContainsInSuffix(parts[0] + sep, Join(parts[1..], sep), parts[i]);
    }
  }

  /** `JoinContains` for every part at once. */
  lemma JoinContainsEach(parts: seq<string>, sep: string)
    ensures forall i :: 0 <= i < |parts| ==> Contains(Join(parts, sep), parts[i])
  {
    forall i | 0 <= i < |parts| ensures Contains(Join(parts, sep), parts[i]) {
      JoinContains(parts, sep, i);
    }
  }

  /** Every middle part of a joined text occurs in it. */
  lemma JoinContainsMiddle(pre: seq<string>, items: seq<string>, post: seq<string>, sep: string)
    ensures forall i :: 0 <= i < |items| ==> Contains(Join(pre + items + post, sep), items[i])
  {
    var lines := pre + items + post;
    forall i | 0 <= i < |items| ensures Contains(Join(lines, sep), items[i]) {
      assert lines[|pre| + i] == items[i];
      JoinContains(lines, sep, |pre| + i);
    }
  }

  /** Splitting a joined text on a separator that occurs in no part gives
      the parts back. */
  lemma {:induction false} SplitJoin(parts: seq<string>, c: char)
    requires |parts| >= 1
    requires forall i :: 0 <= i < |parts| ==> c !in parts[i]
    ensures Split(Join(parts, [c]), c) == parts
  {
    var s := Join(parts, [c]);
    if |parts| == 1 {
    } else {
      var tail := Join(parts[1..], [c]);
      assert s == parts[0] + [c] + tail;
      assert c in s by {
        assert s[|parts[0]|] == c;
      }
      var k := IndexOf(s, c);
      assert k == |parts[0]|;
      assert s[k + 1..] == tail;
      SplitJoin(parts[1..], c);
      assert s[..k] == parts[0];
    }
  }
}
