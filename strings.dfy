/**
 * The Python string and list builtins the analyzer relies on:
 * `str.lower` (ASCII part), `str.strip`, the `in` substring test,
 * `str.join`, `str.split` on the join separator, and `str(n)` for a
 * natural number.
 */
module Strings {
  import opened Wrappers

  // ---------------------------------------------------------------------
  // Case folding (ASCII part of str.lower)
  // ---------------------------------------------------------------------

  function LowerChar(c: char): (d: char)
    ensures 'A' <= c <= 'Z' ==> 'a' <= d <= 'z' && d as int - c as int == 32
    ensures !('A' <= c <= 'Z') ==> d == c
  {
    if 'A' <= c <= 'Z' then (c as int + 32) as char else c
  }

  /** `s.lower()`, letter by letter. */
  function Lower(s: string): (r: string)
    ensures |r| == |s|
    ensures forall i :: 0 <= i < |s| ==> r[i] == LowerChar(s[i])
  {
    seq(|s|, i requires 0 <= i < |s| => LowerChar(s[i]))
  }

  /** Lower-casing commutes with taking a slice. */
  lemma LowerSlice(s: string, i: nat, j: nat)
    requires i <= j <= |s|
    ensures Lower(s[i..j]) == Lower(s)[i..j]
  {
  }

  function Min(a: nat, b: nat): nat
  {
    if a <= b then a else b
  }

  /** `s.startswith(p)` */
  predicate StartsWith(s: string, p: string)
  {
    |p| <= |s| && s[..|p|] == p
  }

  // ---------------------------------------------------------------------
  // Substring containment (Python's `needle in hay` on strings)
  // ---------------------------------------------------------------------

  predicate OccursAt(needle: string, hay: string, i: nat)
  {
    i + |needle| <= |hay| && hay[i..i + |needle|] == needle
  }

  predicate Contains(needle: string, hay: string)
  {
    exists i: nat | i <= |hay| :: OccursAt(needle, hay, i)
  }

  /** Containment is transitive: a substring of a substring is a substring. */
  lemma ContainsTransitive(a: string, b: string, c: string)
    requires Contains(a, b) && Contains(b, c)
    ensures Contains(a, c)
  {
    var i: nat :| i <= |b| && OccursAt(a, b, i);
    var j: nat :| j <= |c| && OccursAt(b, c, j);
    assert i + |a| <= |b| && j + |b| <= |c|;
    forall k | 0 <= k < |a| ensures c[j + i + k] == a[k] {
      assert c[j + i + k] == c[j..j + |b|][i + k] == b[i..i + |a|][k];
    }
    assert c[j + i..j + i + |a|] == a;
    assert OccursAt(a, c, j + i);
  }

  /** Lower-casing preserves containment. */
  lemma ContainsLower(a: string, b: string)
    requires Contains(a, b)
    ensures Contains(Lower(a), Lower(b))
  {
    var i: nat :| i <= |b| && OccursAt(a, b, i);
    LowerSlice(b, i, i + |a|);
    assert OccursAt(Lower(a), Lower(b), i);
  }

  lemma ContainsPrefix(a: string, b: string)
    ensures Contains(a, a + b)
  {
    assert (a + b)[0..|a|] == a;
    assert OccursAt(a, a + b, 0);
  }

  lemma ContainsExtendLeft(a: string, b: string, p: string)
    requires Contains(a, b)
    ensures Contains(a, p + b)
  {
    var i: nat :| i <= |b| && OccursAt(a, b, i);
    assert (p + b)[|p| + i..|p| + i + |a|] == b[i..i + |a|];
    assert OccursAt(a, p + b, |p| + i);
  }

  // ---------------------------------------------------------------------
  // Whitespace stripping (str.strip() with no argument)
  // ---------------------------------------------------------------------

  /** The characters Python's `str.isspace` accepts. */
  predicate IsSpace(c: char)
  {
    var n := c as int;
    (9 <= n <= 13) || (28 <= n <= 32) || n == 0x85 || n == 0xA0 || n == 0x1680
    || (0x2000 <= n <= 0x200A) || n == 0x2028 || n == 0x2029 || n == 0x202F
    || n == 0x205F || n == 0x3000
  }

  predicate AllSpace(s: string)
  {
    forall k :: 0 <= k < |s| ==> IsSpace(s[k])
  }

  /** The first position at or after `k` that does not hold whitespace, or `|s|`. */
  function FirstNonSpace(s: string, k: nat): (i: nat)
    requires k <= |s|
    ensures k <= i <= |s|
    ensures forall m :: k <= m < i ==> IsSpace(s[m])
    ensures i < |s| ==> !IsSpace(s[i])
    decreases |s| - k
  {
    if k == |s| || !IsSpace(s[k]) then k else FirstNonSpace(s, k + 1)
  }

  /** The end of `s[lo..j]` once its trailing whitespace is dropped. */
  function EndOfText(s: string, lo: nat, j: nat): (e: nat)
    requires lo <= j <= |s|
    ensures lo <= e <= j
    ensures forall m :: e <= m < j ==> IsSpace(s[m])
    ensures e > lo ==> !IsSpace(s[e - 1])
    decreases j
  {
    if j == lo || !IsSpace(s[j - 1]) then j else EndOfText(s, lo, j - 1)
  }

  /** `s.strip()`: the slice of `s` with leading and trailing whitespace removed. */
  function Strip(s: string): (r: string)
    ensures |r| <= |s|
    ensures r == [] <==> AllSpace(s)
    ensures r != [] ==> !IsSpace(r[0]) && !IsSpace(r[|r| - 1])
  {
    var i := FirstNonSpace(s, 0);
    var j := EndOfText(s, i, |s|);
    assert AllSpace(s) ==> i == |s|;
    s[i..j]
  }

  /** Only whitespace is removed, and only at the two ends. */
  lemma StripIsSlice(s: string)
    ensures var r, i := Strip(s), FirstNonSpace(s, 0);
            && i + |r| <= |s| && s[i..i + |r|] == r
            && (forall k :: 0 <= k < i ==> IsSpace(s[k]))
            && (forall k :: i + |r| <= k < |s| ==> IsSpace(s[k]))
  {
    var i := FirstNonSpace(s, 0);
    var j := EndOfText(s, i, |s|);
    assert s[i..i + |Strip(s)|] == Strip(s);
  }

  /** Stripping is idempotent. */
  lemma StripIdempotent(s: string)
    ensures Strip(Strip(s)) == Strip(s)
  {
    var r := Strip(s);
    assert FirstNonSpace(r, 0) == 0;
    assert EndOfText(r, 0, |r|) == |r|;
    assert r[0..|r|] == r;
  }

  // ---------------------------------------------------------------------
  // str.join
  // ---------------------------------------------------------------------

  /** `sep.join(parts)`. */
  function Join(sep: string, parts: seq<string>): (r: string)
    ensures parts != [] ==> Contains(parts[0], r) && r[..|parts[0]|] == parts[0]
  {
    if parts == [] then ""
    else if |parts| == 1 then
      assert OccursAt(parts[0], parts[0], 0);
      parts[0]
    else
      assert (parts[0] + sep + Join(sep, parts[1..]))[..|parts[0]|] == parts[0];
      ContainsPrefix(parts[0], sep + Join(sep, parts[1..]));
      assert parts[0] + sep + Join(sep, parts[1..]) == parts[0] + (sep + Join(sep, parts[1..]));
      parts[0] + sep + Join(sep, parts[1..])
  }

  /** Every part occurs in the joined string. */
  lemma {:induction false} JoinContainsParts(sep: string, parts: seq<string>, k: nat)
    requires k < |parts|
    ensures Contains(parts[k], Join(sep, parts))
  {
    if k == 0 {
    } else {
      JoinContainsParts(sep, parts[1..], k - 1);
      ContainsExtendLeft(parts[k], Join(sep, parts[1..]), parts[0] + sep);
    }
  }

  /** The separator the analyzer joins with. */
  const ListSeparator: string := ", "

  /** `s.split(", ")`: the pieces between the occurrences of ", ", left to right. */
  function Split(s: string): seq<string>
  {
    SplitFrom([], s)
  }

  /** Splitting `s` when `cur` has already been read into the current piece. */
  function SplitFrom(cur: string, s: string): seq<string>
    decreases |s|
  {
    if s == [] then [cur]
    else if |s| >= 2 && s[0] == ',' && s[1] == ' ' then [cur] + SplitFrom([], s[2..])
    else SplitFrom(cur + [s[0]], s[1..])
  }

  /** Text without a comma is read into the current piece unchanged. */
  lemma {:induction false} SplitFromPlain(cur: string, p: string, rest: string)
    requires ',' !in p
    ensures SplitFrom(cur, p + rest) == SplitFrom(cur + p, rest)
    decreases |p|
  {
    if p == [] {
      assert p + rest == rest && cur + p == cur;
    } else {
      assert (p + rest)[1..] == p[1..] + rest;
      SplitFromPlain(cur + [p[0]], p[1..], rest);
      assert cur + [p[0]] + p[1..] == cur + p;
    }
  }

  /** Splitting a join of comma-free parts gives the parts back. */
  lemma {:induction false} SplitJoin(parts: seq<string>)
    requires parts != []
    requires forall i :: 0 <= i < |parts| ==> ',' !in parts[i]
    ensures Split(Join(ListSeparator, parts)) == parts
  {
    if |parts| == 1 {
      SplitFromPlain([], parts[0], []);
      assert parts[0] + [] == parts[0] && [] + parts[0] == parts[0];
    } else {
      var tail := Join(ListSeparator, parts[1..]);
      SplitJoin(parts[1..]);
      assert Join(ListSeparator, parts) == parts[0] + (ListSeparator + tail);
      SplitFromPlain([], parts[0], ListSeparator + tail);
      assert [] + parts[0] == parts[0];
      assert (ListSeparator + tail)[2..] == tail;
      assert SplitFrom(parts[0], ListSeparator + tail) == [parts[0]] + SplitFrom([], tail);
      assert [parts[0]] + parts[1..] == parts;
    }
  }

  // ---------------------------------------------------------------------
  // Decimal rendering of a natural number (`f"{n}"`) and its inverse
  // ---------------------------------------------------------------------

  predicate IsDigit(c: char)
  {
    '0' <= c <= '9'
  }

  function DigitChar(d: nat): (c: char)
    requires d < 10
    ensures IsDigit(c)
  {
    ('0' as int + d) as char
  }

  /** The decimal digits of `n`, most significant first, without leading zeros. */
  function NatToString(n: nat): (s: string)
    ensures s != []
    ensures forall k :: 0 <= k < |s| ==> IsDigit(s[k])
    ensures |s| > 1 ==> s[0] != '0'
  {
    if n < 10 then [DigitChar(n)]
    else NatToString(n / 10) + [DigitChar(n % 10)]
  }

  /**
   * Reads a decimal rendering back: a non-empty run of digits with no leading
   * zero, the only strings `NatToString` produces.
   */
  function ParseNat(s: string): Option<nat>
  {
    if |s| > 1 && s[0] == '0' then None else ParseDigits(s)
  }

  /** Reads a non-empty string of decimal digits, leading zeros included. */
  function ParseDigits(s: string): Option<nat>
  {
    if s == [] then None
    else if !IsDigit(s[|s| - 1]) then None
    else
      var d := s[|s| - 1] as int - '0' as int;
      if |s| == 1 then Some(d)
      else match ParseDigits(s[..|s| - 1])
        case None => None
        case Some(m) => Some(10 * m + d)
  }

  lemma {:induction false} ParseDigitsToString(n: nat)
    ensures ParseDigits(NatToString(n)) == Some(n)
  {
    if n >= 10 {
      var s := NatToString(n);
      assert s[..|s| - 1] == NatToString(n / 10);
      ParseDigitsToString(n / 10);
    }
  }

  /** Parsing the decimal rendering gives back the number. */
  lemma ParseNatToString(n: nat)
    ensures ParseNat(NatToString(n)) == Some(n)
  {
    ParseDigitsToString(n);
  }

  lemma {:induction false} ParseDigitsInverse(s: string, n: nat)
    requires ParseDigits(s) == Some(n)
    requires |s| > 1 ==> s[0] != '0'
    ensures s == NatToString(n)
  {
    var d := s[|s| - 1] as int - '0' as int;
    assert DigitChar(d) == s[|s| - 1];
    if |s| > 1 {
      var t := s[..|s| - 1];
      var m := ParseDigits(t).value;
      assert n == 10 * m + d;
      assert t[0] == s[0];
      ParseDigitsInverse(t, m);
      assert NatToString(0) == ['0'];
      assert t != NatToString(0);
      assert n / 10 == m && n % 10 == d;
      assert s == t + [s[|s| - 1]];
    }
  }

  /** A string that parses is the rendering of the number it parses to. */
  lemma ParseNatInverse(s: string, n: nat)
    requires ParseNat(s) == Some(n)
    ensures s == NatToString(n)
  {
    ParseDigitsInverse(s, n);
  }

  /** Length of the run of decimal digits at the start of `s`. */
  function LeadingDigits(s: string): (n: nat)
    ensures n <= |s|
    ensures forall k :: 0 <= k < n ==> IsDigit(s[k])
    ensures n < |s| ==> !IsDigit(s[n])
  {
    if s == [] || !IsDigit(s[0]) then 0 else 1 + LeadingDigits(s[1..])
  }

  /** The digit run of a number followed by a non-digit is exactly that number's rendering. */
  lemma {:induction false} LeadingDigitsOf(ds: string, t: string)
    requires forall k :: 0 <= k < |ds| ==> IsDigit(ds[k])
    requires t != [] && !IsDigit(t[0])
    ensures LeadingDigits(ds + t) == |ds|
  {
    if ds == [] {
      assert ds + t == t;
    } else {
      assert (ds + t)[1..] == ds[1..] + t;
      LeadingDigitsOf(ds[1..], t);
    }
  }
}
