/** The pieces of Python's `str` behaviour that the dashboard's parsing and
    question routing rely on: the `\s` / `isspace()` and `\d` character
    classes, `lower()`, the substring test `in`, `strip()`, `", ".join(...)`
    and the decimal rendering of a non-negative `int`. */
module Text {

  /** Python's `str.isspace()`, which is also what `\s` matches in a `str`
      pattern: the ASCII controls TAB..CR, the separators 0x1C..0x1F, space,
      NEL, NBSP and the Unicode space separators. */
  predicate IsSpace(c: char) {
    || c == ' '
    || ('\t' <= c <= '\r')
    || ('\U{1C}' <= c <= '\U{1F}')
    || c == '\U{85}' || c == '\U{A0}' || c == '\U{1680}'
    || ('\U{2000}' <= c <= '\U{200A}')
    || c == '\U{2028}' || c == '\U{2029}' || c == '\U{202F}' || c == '\U{205F}'
    || c == '\U{3000}'
  }

  /** The ASCII decimal digits. */
  predicate IsDigit(c: char) {
    '0' <= c <= '9'
  }

  predicate AllDigits(s: string) {
    forall i :: 0 <= i < |s| ==> IsDigit(s[i])
  }

  /** True when `s` has no whitespace at either end (the empty string has none). */
  predicate Trimmed(s: string) {
    s == [] || (!IsSpace(s[0]) && !IsSpace(s[|s| - 1]))
  }

  /** `str.lower()` on one character: ASCII and Latin-1 capitals map to their
      small letters; every other character is left alone. */
  function LowerChar(c: char): (d: char)
    ensures 'A' <= c <= 'Z' ==> d as int == c as int + 32
    ensures !('A' <= c <= 'Z') && !('\U{C0}' <= c <= '\U{DE}') ==> d == c
  {
    if 'A' <= c <= 'Z' || ('\U{C0}' <= c <= '\U{DE}' && c != '\U{D7}') then
      (c as int + 32) as char
    else
      c
  }

  /** A capital `str.lower()` changes: `A`-`Z`, and the Latin-1 capitals
      U+00C0 to U+00DE other than the multiplication sign U+00D7. */
  predicate Capital(c: char) {
    'A' <= c <= 'Z' || ('\U{C0}' <= c <= '\U{DE}' && c != '\U{D7}')
  }

  /** `str.lower()`, character by character. */
  function Lower(s: string): (r: string)
    ensures |r| == |s|
    ensures forall i :: 0 <= i < |r| ==> !('A' <= r[i] <= 'Z')
    ensures forall i :: 0 <= i < |s| && !('A' <= s[i] <= 'Z') && !('\U{C0}' <= s[i] <= '\U{DE}') ==> r[i] == s[i]
    ensures forall i :: 0 <= i < |s| ==>
      if Capital(s[i]) then r[i] as int == s[i] as int + 32 else r[i] == s[i]
  {
    seq(|s|, i requires 0 <= i < |s| => LowerChar(s[i]))
  }

  /** Lower-casing twice is lower-casing once. */
  lemma {:induction false} LowerIdempotent(s: string)
    ensures Lower(Lower(s)) == Lower(s)
  {
    forall i | 0 <= i < |s|
      ensures Lower(Lower(s))[i] == Lower(s)[i]
    {
      var c := s[i];
      if 'A' <= c <= 'Z' || ('\U{C0}' <= c <= '\U{DE}' && c != '\U{D7}') {
        assert Lower(s)[i] as int == c as int + 32;
      }
    }
  }

  /** Python's `pattern in text`: some window of `text` equals `pattern`
      (the empty pattern occurs in every text). */
  predicate Contains(text: string, pattern: string) {
    exists i | 0 <= i <= |text| - |pattern| :: OccursAt(text, pattern, i)
  }

  /** `pattern` is the window of `text` starting at `i`. */
  predicate OccursAt(text: string, pattern: string, i: int) {
    0 <= i <= |text| - |pattern| && text[i..i + |pattern|] == pattern
  }

  /** Every character of `s[lo..hi]` is whitespace. */
  predicate SpacesIn(s: string, lo: nat, hi: nat)
    requires lo <= hi <= |s|
  {
    forall k :: lo <= k < hi ==> IsSpace(s[k])
  }

  /** The first position at or after `i` that holds no whitespace, or `|s|`:
      where a greedy `\s*` from `i` stops (it may cross line feeds). */
  function SkipSpaces(s: string, i: nat): (a: nat)
    requires i <= |s|
    ensures i <= a <= |s| && SpacesIn(s, i, a)
    ensures a == |s| || !IsSpace(s[a])
    decreases |s| - i
  {
    if i < |s| && IsSpace(s[i]) then SkipSpaces(s, i + 1) else i
  }

  /** Walking back from `j`, but not past `lo`: the position just after the
      last character that is not whitespace, or `lo`. */
  function SkipSpacesBack(s: string, lo: nat, j: nat): (b: nat)
    requires lo <= j <= |s|
    ensures lo <= b <= j && SpacesIn(s, b, j)
    ensures b == lo || !IsSpace(s[b - 1])
    decreases j
  {
    if lo < j && IsSpace(s[j - 1]) then SkipSpacesBack(s, lo, j - 1) else j
  }

  /** Where `s.strip()` starts: after the leading whitespace. */
  function StripStart(s: string): nat {
    SkipSpaces(s, 0)
  }

  /** Where `s.strip()` ends: before the trailing whitespace. */
  function StripEnd(s: string): nat {
    SkipSpacesBack(s, StripStart(s), |s|)
  }

  /** `s.strip()`: `s` is leading whitespace, then the result, then trailing
      whitespace, and the result has no whitespace at either end. */
  function Strip(s: string): (r: string)
    ensures Trimmed(r)
    ensures StripStart(s) + |r| == StripEnd(s) <= |s| && r == s[StripStart(s)..StripEnd(s)]
    ensures SpacesIn(s, 0, StripStart(s)) && SpacesIn(s, StripEnd(s), |s|)
  {
    s[StripStart(s)..StripEnd(s)]
  }

  /** Stripping a stripped string changes nothing. */
  lemma {:induction false} StripIdempotent(s: string)
    ensures Strip(Strip(s)) == Strip(s)
  {
    var r := Strip(s);
    assert StripStart(r) == 0;
    assert StripEnd(r) == |r|;
    assert r[0..|r|] == r;
  }

  /** `sep.join(xs)`. */
  function Join(xs: seq<string>, sep: string): (r: string)
    ensures |xs| > 0 ==> |r| >= |xs[0]| && r[..|xs[0]|] == xs[0]
  {
    if |xs| == 0 then ""
    else if |xs| == 1 then xs[0]
    else xs[0] + sep + Join(xs[1..], sep)
  }

  /** Where the `i`-th item starts in `Join(xs, sep)`: after every earlier
      item and its separator. */
  function JoinOffset(xs: seq<string>, sep: string, i: nat): nat
    requires i <= |xs|
  {
    if i == 0 then 0 else JoinOffset(xs, sep, i - 1) + |xs[i - 1]| + |sep|
  }

  /** The joined text is as long as the items and the separators between them. */
  lemma {:induction false} JoinLength(xs: seq<string>, sep: string)
    requires |xs| > 0
    ensures |Join(xs, sep)| == JoinOffset(xs, sep, |xs| - 1) + |xs[|xs| - 1]|
  {
    JoinSuffix(xs, sep, |xs| - 1);
    assert xs[|xs| - 1..] == [xs[|xs| - 1]];
  }

  /** The joined text begins with the first item, followed by a separator
      when more items come. */
  lemma {:induction false} JoinHead(xs: seq<string>, sep: string)
    requires |xs| > 0
    ensures |xs[0]| <= |Join(xs, sep)| && Join(xs, sep)[..|xs[0]|] == xs[0]
    ensures |xs| > 1 ==>
      |xs[0]| + |sep| <= |Join(xs, sep)| && Join(xs, sep)[|xs[0]|..|xs[0]| + |sep|] == sep
  {
    if |xs| > 1 {
      var j := Join(xs, sep);
      assert j == xs[0] + sep + Join(xs[1..], sep);
      assert j[..|xs[0]|] == xs[0];
      assert j[|xs[0]|..|xs[0]| + |sep|] == sep;
    }
  }

  /** Item `i` sits in the joined text at its offset. */
  lemma {:induction false} JoinItem(xs: seq<string>, sep: string, i: nat)
    requires i < |xs|
    ensures JoinOffset(xs, sep, i) + |xs[i]| <= |Join(xs, sep)|
    ensures Join(xs, sep)[JoinOffset(xs, sep, i)..JoinOffset(xs, sep, i) + |xs[i]|] == xs[i]
  {
    JoinSuffix(xs, sep, i);
    JoinHead(xs[i..], sep);
    var j, o := Join(xs, sep), JoinOffset(xs, sep, i);
    assert j[o..o + |xs[i]|] == j[o..][..|xs[i]|];
  }

  /** A separator follows every item but the last. */
  lemma {:induction false} JoinSeparator(xs: seq<string>, sep: string, i: nat)
    requires i + 1 < |xs|
    ensures JoinOffset(xs, sep, i) + |xs[i]| + |sep| <= |Join(xs, sep)|
    ensures Join(xs, sep)[JoinOffset(xs, sep, i) + |xs[i]|..JoinOffset(xs, sep, i) + |xs[i]| + |sep|] == sep
  {
    JoinSuffix(xs, sep, i);
    JoinHead(xs[i..], sep);
    var j, o := Join(xs, sep), JoinOffset(xs, sep, i);
    assert j[o + |xs[i]|..o + |xs[i]| + |sep|] == j[o..][|xs[i]|..|xs[i]| + |sep|];
  }

  /** From the offset of item `i` on, the joined text is the join of the items from `i` on. */
  lemma {:induction false} JoinSuffix(xs: seq<string>, sep: string, i: nat)
    requires i < |xs|
    ensures JoinOffset(xs, sep, i) <= |Join(xs, sep)|
    ensures Join(xs, sep)[JoinOffset(xs, sep, i)..] == Join(xs[i..], sep)
  {
    if i > 0 {
      JoinSuffix(xs, sep, i - 1);
      var rest := xs[i - 1..];
      assert rest[1..] == xs[i..];
      assert Join(rest, sep) == xs[i - 1] + sep + Join(xs[i..], sep);
      var j, o := Join(xs, sep), JoinOffset(xs, sep, i - 1);
      assert j[JoinOffset(xs, sep, i)..] == j[o..][|xs[i - 1]| + |sep|..];
    }
  }

  /** The decimal digit for `d < 10`. */
  function DigitChar(d: nat): (c: char)
    requires d < 10
    ensures IsDigit(c)
  {
    ('0' as int + d) as char
  }

  /** The value of a string of decimal digits. */
  function DigitsValue(s: string): nat
    requires AllDigits(s)
  {
    if s == [] then 0 else DigitsValue(s[..|s| - 1]) * 10 + (s[|s| - 1] as int - '0' as int)
  }

  /** `str(n)` for a non-negative `int`: its decimal digits, without leading zeros. */
  function NatToString(n: nat): (s: string)
    ensures |s| > 0 && AllDigits(s)
    ensures s[0] == '0' ==> n == 0
  {
    if n < 10 then [DigitChar(n)] else NatToString(n / 10) + [DigitChar(n % 10)]
  }

  /** Reading the rendered digits back gives the number. */
  lemma {:induction false} NatToStringRoundTrip(n: nat)
    ensures DigitsValue(NatToString(n)) == n
  {
    var s := NatToString(n);
    if n >= 10 {
      NatToStringRoundTrip(n / 10);
      assert s[..|s| - 1] == NatToString(n / 10);
    }
  }
}
