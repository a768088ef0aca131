/** String helpers with Python's str semantics: strip, split, join and decimal digits. */
module Text {

  /** Python's str.isspace(): the characters that str.strip() with no argument removes. */
  predicate IsSpace(c: char) {
    || '\t' <= c <= '\r'
    || '\U{1C}' <= c <= ' '
    || c == '\U{85}' || c == '\U{A0}' || c == '\U{1680}'
    || '\U{2000}' <= c <= '\U{200A}'
    || c == '\U{2028}' || c == '\U{2029}' || c == '\U{202F}' || c == '\U{205F}' || c == '\U{3000}'
  }

  predicate AllSpace(s: string) {
    forall i | 0 <= i < |s| :: IsSpace(s[i])
  }

  /** No white space at either end. */
  predicate IsTrimmed(s: string) {
    s == [] || (!IsSpace(s[0]) && !IsSpace(s[|s| - 1]))
  }

  /** t occurs in s at offset i with nothing but white space before and after it. */
  predicate PaddedAt(s: string, i: nat, t: string) {
    && i + |t| <= |s|
    && s[i..i + |t|] == t
    && AllSpace(s[..i])
    && AllSpace(s[i + |t|..])
  }

  /** The length of the white-space run that starts s. */
  function LeadingSpaces(s: string): (n: nat)
    ensures n <= |s|
  {
    if s == [] || !IsSpace(s[0]) then 0 else 1 + LeadingSpaces(s[1..])
  }

  /** LeadingSpaces(s) is the one k with white space before it and none at it. */
  lemma {:induction false} LeadingSpacesIs(s: string, k: nat)
    requires k <= |s|
    requires AllSpace(s[..k])
    requires k < |s| ==> !IsSpace(s[k])
    ensures LeadingSpaces(s) == k
  {
    if k > 0 {
      assert s[..k][0] == s[0];
      assert s[1..][..k - 1] == s[..k][1..];
      LeadingSpacesIs(s[1..], k - 1);
    }
  }

  lemma {:induction false} LeadingSpacesBound(s: string)
    ensures AllSpace(s[..LeadingSpaces(s)])
    ensures LeadingSpaces(s) < |s| ==> !IsSpace(s[LeadingSpaces(s)])
  {
    if s != [] && IsSpace(s[0]) {
      LeadingSpacesBound(s[1..]);
      var n := LeadingSpaces(s);
      assert s[..n] == [s[0]] + s[1..][..n - 1];
    }
  }

  /** The length of the white-space run that ends s. */
  function TrailingSpaces(s: string): (n: nat)
    ensures n <= |s|
  {
    if s == [] || !IsSpace(s[|s| - 1]) then 0 else 1 + TrailingSpaces(s[..|s| - 1])
  }

  /** TrailingSpaces(s) is the one k with white space after |s| - k and none just before. */
  lemma {:induction false} TrailingSpacesIs(s: string, k: nat)
    requires k <= |s|
    requires AllSpace(s[|s| - k..])
    requires k < |s| ==> !IsSpace(s[|s| - k - 1])
    ensures TrailingSpaces(s) == k
  {
    if k > 0 {
      var t := s[..|s| - 1];
      assert s[|s| - k..][k - 1] == s[|s| - 1];
      assert t[|t| - (k - 1)..] == s[|s| - k..][..k - 1];
      TrailingSpacesIs(t, k - 1);
    }
  }

  lemma {:induction false} TrailingSpacesBound(s: string)
    ensures AllSpace(s[|s| - TrailingSpaces(s)..])
    ensures TrailingSpaces(s) < |s| ==> !IsSpace(s[|s| - TrailingSpaces(s) - 1])
  {
    if s != [] && IsSpace(s[|s| - 1]) {
      var t := s[..|s| - 1];
      TrailingSpacesBound(t);
      var n := TrailingSpaces(s);
      assert s[|s| - n..] == t[|t| - (n - 1)..] + [s[|s| - 1]];
    }
  }

  /** Python's str.strip() with no argument. */
  function Strip(s: string): (r: string)
    ensures IsTrimmed(r)
    ensures exists i: nat :: PaddedAt(s, i, r)
  {
    var lead := LeadingSpaces(s);
    var t := s[lead..];
    var r := t[..|t| - TrailingSpaces(t)];
    StripPadded(s, lead, r);
    r
  }

  /** The text between the leading and the trailing white space is trimmed and padded by white space in s. */
  lemma StripPadded(s: string, lead: nat, r: string)
    requires lead == LeadingSpaces(s)
    requires r == s[lead..][..|s[lead..]| - TrailingSpaces(s[lead..])]
    ensures IsTrimmed(r) && PaddedAt(s, lead, r)
  {
    var t := s[lead..];
    var trail := TrailingSpaces(t);
    assert AllSpace(s[..lead]) && (lead < |s| ==> !IsSpace(s[lead])) by {
      LeadingSpacesBound(s);
    }
    assert AllSpace(t[|t| - trail..]) && (trail < |t| ==> !IsSpace(t[|t| - trail - 1])) by {
      TrailingSpacesBound(t);
    }
    assert s[lead..lead + |r|] == r;
    assert s[lead + |r|..] == t[|t| - trail..];
    if r != [] {
      assert r[0] == s[lead];
      assert r[|r| - 1] == t[|t| - trail - 1];
    }
  }

  /** Strip is determined by its contract: any trimmed t padded by white space inside s is Strip(s). */
  lemma {:induction false} StripUnique(s: string, i: nat, t: string)
    requires PaddedAt(s, i, t)
    requires IsTrimmed(t)
    ensures Strip(s) == t
  {
    if t == [] {
      assert s[..|s|] == s;
      assert AllSpace(s) by {
        forall k | 0 <= k < |s| ensures IsSpace(s[k]) {
          if k < i {
            assert s[..i][k] == s[k];
          } else {
            assert s[i..][k - i] == s[k];
          }
        }
      }
      LeadingSpacesIs(s, |s|);
    } else {
      assert s[i] == t[0];
      LeadingSpacesIs(s, i);
      var u := s[i..];
      assert u[..|t|] == t;
      assert u[|u| - (|u| - |t|)..] == s[i + |t|..];
      assert u[|u| - (|u| - |t|) - 1] == t[|t| - 1];
      TrailingSpacesIs(u, |u| - |t|);
    }
  }

  /** Stripping a trimmed string changes nothing. */
  lemma StripTrimmed(t: string)
    requires IsTrimmed(t)
    ensures Strip(t) == t
  {
    assert t[0..0 + |t|] == t;
    assert t[0 + |t|..] == [];
    StripUnique(t, 0, t);
  }

  /** The text before the first c, or all of s when c does not occur: Python's s.split(c, 1)[0]. */
  function BeforeFirst(s: string, c: char): (r: string)
    ensures c !in r
    ensures r <= s
    ensures |r| < |s| ==> s[|r|] == c
  {
    if s == [] || s[0] == c then [] else [s[0]] + BeforeFirst(s[1..], c)
  }

  /** The prefix before the first c is the only prefix free of c that stops at a c or at the end. */
  lemma {:induction false} BeforeFirstUnique(s: string, c: char, k: nat)
    requires k <= |s|
    requires c !in s[..k]
    requires k < |s| ==> s[k] == c
    ensures BeforeFirst(s, c) == s[..k]
  {
    if k > 0 {
      assert s[..k][0] == s[0];
      assert s[1..][..k - 1] == s[..k][1..];
      BeforeFirstUnique(s[1..], c, k - 1);
    }
  }

  predicate StartsWith(s: string, prefix: string) {
    |prefix| <= |s| && s[..|prefix|] == prefix
  }

  /** Python's str.endswith. */
  predicate EndsWith(s: string, suffix: string) {
    |suffix| <= |s| && s[|s| - |suffix|..] == suffix
  }

  /** Python's str.split(sep) with an explicit one-character separator. */
  function Split(s: string, sep: char): (parts: seq<string>)
    ensures |parts| >= 1
  {
    if s == [] then [""]
    else
      var rest := Split(s[1..], sep);
      if s[0] == sep then [""] + rest else [[s[0]] + rest[0]] + rest[1..]
  }

  /** No part of a split holds the separator. */
  lemma {:induction false} SplitPartsFree(s: string, sep: char)
    ensures forall p <- Split(s, sep) :: sep !in p
  {
    if s != [] {
      SplitPartsFree(s[1..], sep);
    }
  }

  /** Joining the parts with the separator gives back the split string. */
  lemma {:induction false} JoinSplit(s: string, sep: char)
    ensures Join(Split(s, sep), sep) == s
  {
    if s != [] {
      var rest := Split(s[1..], sep);
      JoinSplit(s[1..], sep);
      if s[0] != sep && |rest| > 1 {
        var parts := [[s[0]] + rest[0]] + rest[1..];
        assert parts[1..] == rest[1..];
      }
    }
  }

  /** There is one more part than there are separators. */
  lemma {:induction false} SplitCount(s: string, sep: char)
    ensures |Split(s, sep)| == multiset(s)[sep] + 1
  {
    if s != [] {
      SplitCount(s[1..], sep);
      assert s == [s[0]] + s[1..];
      assert multiset(s) == multiset([s[0]]) + multiset(s[1..]);
    }
  }

  /** Python's sep.join(parts). */
  function Join(parts: seq<string>, sep: char): string
  {
    if parts == [] then ""
    else if |parts| == 1 then parts[0]
    else parts[0] + [sep] + Join(parts[1..], sep)
  }

  /** A string without the separator is a single part. */
  lemma {:induction false} SplitWithoutSeparator(s: string, sep: char)
    ensures sep !in s ==> Split(s, sep) == [s]
  {
    if s != [] && sep !in s {
      assert s[0] in s;
      SplitWithoutSeparator(s[1..], sep);
      assert [s[0]] + s[1..] == s;
    }
  }

  /** A string that starts with the separator splits into an empty part and the parts of the rest. */
  lemma SplitAtSeparator(t: string, sep: char)
    ensures Split([sep] + t, sep) == [""] + Split(t, sep)
  {
    assert ([sep] + t)[1..] == t;
  }

  /** Any other first character joins the first part of the rest. */
  lemma SplitAtOther(c: char, t: string, sep: char)
    requires c != sep
    ensures Split([c] + t, sep) == [[c] + Split(t, sep)[0]] + Split(t, sep)[1..]
  {
    assert ([c] + t)[1..] == t;
  }

  /** A separator splits s into the parts of the text before it followed by the parts of the text after it. */
  lemma {:induction false} SplitAppend(a: string, b: string, sep: char)
    ensures Split(a + [sep] + b, sep) == Split(a, sep) + Split(b, sep)
  {
    if a == [] {
      assert a + [sep] + b == [sep] + b;
      SplitAtSeparator(b, sep);
    } else {
      var c, u := a[0], a[1..];
      SplitAppend(u, b, sep);
      assert a == [c] + u;
      assert a + [sep] + b == [c] + (u + [sep] + b);
      SplitAppendStep(c, u, b, sep);
    }
  }

  /** The step of SplitAppend: putting a character in front keeps the split of the text after the separator. */
  lemma SplitAppendStep(c: char, u: string, b: string, sep: char)
    requires Split(u + [sep] + b, sep) == Split(u, sep) + Split(b, sep)
    ensures Split([c] + (u + [sep] + b), sep) == Split([c] + u, sep) + Split(b, sep)
  {
    var x, y := Split(u, sep), Split(b, sep);
    if c == sep {
      SplitAtSeparator(u + [sep] + b, sep);
      SplitAtSeparator(u, sep);
      ConcatAssociative([""], x, y);
    } else {
      SplitAtOther(c, u + [sep] + b, sep);
      SplitAtOther(c, u, sep);
      assert (x + y)[0] == x[0];
      assert (x + y)[1..] == x[1..] + y;
      ConcatAssociative([[c] + x[0]], x[1..], y);
    }
  }

  lemma ConcatAssociative<T>(a: seq<T>, b: seq<T>, c: seq<T>)
    ensures a + (b + c) == (a + b) + c
  {
  }

  /** Splitting a join of separator-free parts gives the parts back. */
  lemma {:induction false} SplitJoin(parts: seq<string>, sep: char)
    requires |parts| >= 1
    requires forall p <- parts :: sep !in p
    ensures Split(Join(parts, sep), sep) == parts
  {
    if |parts| == 1 {
      SplitWithoutSeparator(parts[0], sep);
    } else {
      SplitJoin(parts[1..], sep);
      SplitWithoutSeparator(parts[0], sep);
      SplitAppend(parts[0], Join(parts[1..], sep), sep);
      assert parts == [parts[0]] + parts[1..];
    }
  }

  predicate IsDigit(c: char) {
    '0' <= c <= '9'
  }

  /** A non-empty run of decimal digits. */
  predicate IsDigits(s: string) {
    |s| >= 1 && forall i | 0 <= i < |s| :: IsDigit(s[i])
  }

  function DigitChar(d: nat): (c: char)
    requires d < 10
    ensures IsDigit(c)
    ensures DigitValue(c) == d
  {
    ('0' as int + d) as char
  }

  function DigitValue(c: char): (d: nat)
    requires IsDigit(c)
    ensures d < 10
  {
    c as int - '0' as int
  }

  /** The number a run of decimal digits spells. */
  function DigitsValue(s: string): nat
    requires forall i | 0 <= i < |s| :: IsDigit(s[i])
  {
    if s == [] then 0 else 10 * DigitsValue(s[..|s| - 1]) + DigitValue(s[|s| - 1])
  }

  lemma DigitsValueOfOne(c: char)
    requires IsDigit(c)
    ensures DigitsValue([c]) == DigitValue(c)
  {
    assert [c][..0] == [];
  }

  lemma DigitsValueOfTwo(c: char, d: char)
    requires IsDigit(c) && IsDigit(d)
    ensures DigitsValue([c, d]) == 10 * DigitValue(c) + DigitValue(d)
  {
    assert [c, d][..1] == [c];
    DigitsValueOfOne(c);
  }

  /** Python's str(n) for a non-negative int: its decimal digits, without leading zeros. */
  function NatToString(n: nat): (r: string)
    ensures IsDigits(r)
    ensures DigitsValue(r) == n
    ensures r[0] == '0' ==> r == "0"
  {
    if n < 10 then [DigitChar(n)]
    else
      var r := NatToString(n / 10) + [DigitChar(n % 10)];
      assert r[..|r| - 1] == NatToString(n / 10);
      r
  }
}
