/**
 * The few Python string operations the scanner relies on, written out over
 * `seq<char>`: `str.strip()`, `str.lower()`, `str.split(sep)`, `int(text)` and
 * `str(n)`. Only the ASCII part of each is modelled (see README).
 */
module Text {
  import opened Wrappers

  /**
   * The whitespace `int()` skips around a number (C's `isspace`): space, tab,
   * line feed, vertical tab, form feed and carriage return.
   */
  predicate IntSpace(c: char) {
    c == ' ' || c == '\t' || c == '\n' || c == '\r' || c == '\U{000B}' || c == '\U{000C}'
  }

  /**
   * The ASCII characters `str.strip()` removes: the whitespace `int()` skips
   * and also the four separators U+001C..U+001F.
   */
  predicate IsSpace(c: char) {
    IntSpace(c) || '\U{001C}' <= c <= '\U{001F}'
  }

  /** Text made of `strip()` whitespace only. */
  predicate AllSpace(s: string) {
    forall i :: 0 <= i < |s| ==> IsSpace(s[i])
  }

  /** Text made of `int()` whitespace only. */
  predicate AllIntSpace(s: string) {
    forall i :: 0 <= i < |s| ==> IntSpace(s[i])
  }

  predicate IsDigit(c: char) {
    '0' <= c <= '9'
  }

  predicate AllDigits(s: string) {
    forall i :: 0 <= i < |s| ==> IsDigit(s[i])
  }

  // ---------------------------------------------------------------------------
  // str.strip()

  /** `s.lstrip()`: the suffix left after dropping leading whitespace. */
  function StripLeft(s: string): (r: string)
    ensures |r| <= |s| && r == s[|s| - |r|..]
    ensures r == [] || !IsSpace(r[0])
  {
    if s != [] && IsSpace(s[0]) then StripLeft(s[1..]) else s
  }

  /** `s.rstrip()`: the prefix left after dropping trailing whitespace. */
  function StripRight(s: string): (r: string)
    ensures |r| <= |s| && r == s[..|r|]
    ensures r == [] || !IsSpace(r[|r| - 1])
  {
    if s != [] && IsSpace(s[|s| - 1]) then StripRight(s[..|s| - 1]) else s
  }

  /** Everything `lstrip()` drops is whitespace. */
  lemma {:induction false} StripLeftDropsSpace(s: string)
    ensures forall i :: 0 <= i < |s| - |StripLeft(s)| ==> IsSpace(s[i])
  {
    if s != [] && IsSpace(s[0]) {
      var u := s[1..];
      StripLeftDropsSpace(u);
      forall i | 1 <= i < |s| - |StripLeft(s)| ensures IsSpace(s[i]) {
        assert s[i] == u[i - 1];
      }
    }
  }

  /** Everything `rstrip()` drops is whitespace. */
  lemma {:induction false} StripRightDropsSpace(s: string)
    ensures forall i :: |StripRight(s)| <= i < |s| ==> IsSpace(s[i])
  {
    if s != [] && IsSpace(s[|s| - 1]) {
      var u := s[..|s| - 1];
      StripRightDropsSpace(u);
      forall i | |StripRight(s)| <= i < |s| - 1 ensures IsSpace(s[i]) {
        assert s[i] == u[i];
      }
    }
  }

  /** `s.strip()`: a contiguous slice of `s` with whitespace removed from both ends. */
  function Strip(s: string): (r: string)
    ensures |r| <= |s|
    ensures r == [] || (!IsSpace(r[0]) && !IsSpace(r[|r| - 1]))
    ensures var k := |s| - |StripLeft(s)|; k + |r| <= |s| && r == s[k..k + |r|]
  {
    var l := StripLeft(s);
    var r := StripRight(l);
    assert r == s[|s| - |l|..][..|r|];
    r
  }

  /** Stripping twice is stripping once. */
  lemma StripIdempotent(s: string)
    ensures Strip(Strip(s)) == Strip(s)
  {
    var t := Strip(s);
    if t != [] {
      StripOfPadded([], t, []);
      assert [] + t + [] == t;
    }
  }

  /** Surrounding whitespace is exactly what `strip()` removes. */
  lemma {:induction false} StripOfPadded(front: string, t: string, back: string)
    requires forall i :: 0 <= i < |front| ==> IsSpace(front[i])
    requires forall i :: 0 <= i < |back| ==> IsSpace(back[i])
    requires t != [] && !IsSpace(t[0]) && !IsSpace(t[|t| - 1])
    ensures Strip(front + t + back) == t
  {
    StripLeftOfPadded(front, t + back);
    assert front + t + back == front + (t + back);
    StripRightOfPadded(t, back);
  }

  lemma {:induction false} StripLeftOfPadded(front: string, rest: string)
    requires forall i :: 0 <= i < |front| ==> IsSpace(front[i])
    requires rest == [] || !IsSpace(rest[0])
    ensures StripLeft(front + rest) == rest
  {
    if front != [] {
      assert (front + rest)[1..] == front[1..] + rest;
      StripLeftOfPadded(front[1..], rest);
    }
  }

  lemma {:induction false} StripRightOfPadded(rest: string, back: string)
    requires forall i :: 0 <= i < |back| ==> IsSpace(back[i])
    requires rest == [] || !IsSpace(rest[|rest| - 1])
    ensures StripRight(rest + back) == rest
  {
    if back != [] {
      assert (rest + back)[..|rest + back| - 1] == rest + back[..|back| - 1];
      StripRightOfPadded(rest, back[..|back| - 1]);
    } else {
      assert rest + back == rest;
    }
  }

  // ---------------------------------------------------------------------------
  // Sequence identities that proofs about concatenated text cite explicitly

  lemma EmptyAppend<T>(x: seq<T>)
    ensures [] + x == x
  {
  }

  lemma AppendEmpty<T>(x: seq<T>)
    ensures x + [] == x
  {
  }

  lemma AppendAssoc<T>(x: seq<T>, y: seq<T>, z: seq<T>)
    ensures (x + y) + z == x + (y + z)
  {
  }

  // ---------------------------------------------------------------------------
  // str.lower()

  function LowerChar(c: char): char {
    if 'A' <= c <= 'Z' then (c as int + 32) as char else c
  }

  /** `s.lower()` on ASCII letters; every other character is kept. */
  function Lower(s: string): (r: string)
    ensures |r| == |s|
    ensures forall i :: 0 <= i < |s| ==> r[i] == LowerChar(s[i])
  {
    seq(|s|, i requires 0 <= i < |s| => LowerChar(s[i]))
  }

  // ---------------------------------------------------------------------------
  // str.split(sep) and its inverse sep.join(parts)

  /** How many times `c` occurs in `s`. */
  function Count(s: string, c: char): (n: nat)
    ensures n <= |s|
    ensures n == 0 <==> c !in s
  {
    if s == [] then 0 else (if s[0] == c then 1 else 0) + Count(s[1..], c)
  }

  /** `Count` is the number of occurrences: the multiplicity of `c` in `s`. */
  lemma {:induction false} CountOccurrences(s: string, c: char)
    ensures Count(s, c) == multiset(s)[c]
  {
    if s != [] {
      assert s == [s[0]] + s[1..];
      CountOccurrences(s[1..], c);
    }
  }

  /** `sep.join(parts)`. */
  function Join(parts: seq<string>, sep: char): string {
    if parts == [] then []
    else if |parts| == 1 then parts[0]
    else parts[0] + [sep] + Join(parts[1..], sep)
  }

  /**
   * `s.split(sep)` with a one-character separator: one more piece than there
   * are separators, no piece contains the separator, and joining the pieces
   * back gives `s`.
   */
  function Split(s: string, sep: char): (parts: seq<string>)
    ensures |parts| == Count(s, sep) + 1
    ensures forall i :: 0 <= i < |parts| ==> sep !in parts[i]
    ensures Join(parts, sep) == s
  {
    if s == [] then [[]]
    else
      var rest := Split(s[1..], sep);
      if s[0] == sep then
        JoinEmptyFirst(rest, sep);
        [[]] + rest
      else
        JoinExtendFirst(s[0], rest, sep);
        [[s[0]] + rest[0]] + rest[1..]
  }

  lemma JoinEmptyFirst(rest: seq<string>, sep: char)
    requires |rest| >= 1
    ensures Join([[]] + rest, sep) == [sep] + Join(rest, sep)
  {
    assert ([[]] + rest)[1..] == rest;
  }

  lemma JoinExtendFirst(c: char, rest: seq<string>, sep: char)
    requires |rest| >= 1
    ensures Join([[c] + rest[0]] + rest[1..], sep) == [c] + Join(rest, sep)
  {
    var parts := [[c] + rest[0]] + rest[1..];
    assert parts[1..] == rest[1..];
  }

  /** Splitting at the first separator peels off exactly the piece before it. */
  lemma {:induction false} SplitAtFirst(x: string, sep: char, y: string)
    requires sep !in x
    ensures Split(x + [sep] + y, sep) == [x] + Split(y, sep)
  {
    if x == [] {
      assert x + [sep] + y == [sep] + y;
      assert ([sep] + y)[1..] == y;
    } else {
      var s := x + [sep] + y;
      assert s[0] == x[0] && s[0] != sep;
      assert s[1..] == x[1..] + [sep] + y;
      SplitAtFirst(x[1..], sep, y);
      var rest := Split(s[1..], sep);
      assert rest[0] == x[1..] && rest[1..] == Split(y, sep);
      assert [x[0]] + x[1..] == x;
    }
  }

  /** A string without the separator is one piece. */
  lemma SplitNone(x: string, sep: char)
    requires sep !in x
    ensures Split(x, sep) == [x]
  {
    var p := Split(x, sep);
    assert |p| == 1;
    assert Join(p, sep) == p[0];
  }

  // ---------------------------------------------------------------------------
  // int(text) and str(n)

  function DigitValue(c: char): (d: nat)
    requires IsDigit(c)
    ensures d < 10
  {
    c as int - '0' as int
  }

  function DigitChar(d: nat): (c: char)
    requires d < 10
    ensures IsDigit(c) && DigitValue(c) == d
  {
    ('0' as int + d) as char
  }

  /** The value of a run of decimal digits, most significant first. */
  function DigitsValue(s: string): nat
    requires AllDigits(s)
  {
    if s == [] then 0 else 10 * DigitsValue(s[..|s| - 1]) + DigitValue(s[|s| - 1])
  }

  /**
   * `int(text)`: an optional sign and at least one ASCII digit, with only
   * `int()` whitespace around them; anything else is the `ValueError` case,
   * `None` here. The text is read once what `strip()` would take off is all
   * `int()` whitespace: a separator U+001C..U+001F there is not skipped, and
   * then no number can follow or precede it.
   */
  function ParseInt(s: string): (r: Option<int>)
    ensures r.Some? ==> SignedDecimal(Strip(s), r.value)
  {
    if LeadingIntSpace(s) && TrailingIntSpace(s) then ParseSigned(Strip(s)) else None
  }

  /** The whitespace `strip()` takes off the front is all `int()` whitespace. */
  predicate LeadingIntSpace(s: string) {
    s == [] || !IsSpace(s[0]) || (IntSpace(s[0]) && LeadingIntSpace(s[1..]))
  }

  /** The whitespace `strip()` takes off the end is all `int()` whitespace. */
  predicate TrailingIntSpace(s: string) {
    s == [] || !IsSpace(s[|s| - 1]) || (IntSpace(s[|s| - 1]) && TrailingIntSpace(s[..|s| - 1]))
  }

  lemma {:induction false} LeadingOfPadded(front: string, rest: string)
    requires AllIntSpace(front)
    requires rest == [] || !IsSpace(rest[0])
    ensures LeadingIntSpace(front + rest)
  {
    if front != [] {
      assert (front + rest)[1..] == front[1..] + rest;
      LeadingOfPadded(front[1..], rest);
    } else {
      assert front + rest == rest;
    }
  }

  lemma {:induction false} TrailingOfPadded(rest: string, back: string)
    requires AllIntSpace(back)
    requires rest == [] || !IsSpace(rest[|rest| - 1])
    ensures TrailingIntSpace(rest + back)
  {
    if back != [] {
      assert (rest + back)[..|rest + back| - 1] == rest + back[..|back| - 1];
      TrailingOfPadded(rest, back[..|back| - 1]);
    } else {
      assert rest + back == rest;
    }
  }

  /** A whitespace prefix of a text that passes `LeadingIntSpace` is `int()` whitespace. */
  lemma {:induction false} LeadingPadding(s: string, i: nat)
    requires LeadingIntSpace(s) && i <= |s|
    requires forall k :: 0 <= k < i ==> IsSpace(s[k])
    ensures forall k :: 0 <= k < i ==> IntSpace(s[k])
  {
    if i > 0 {
      var u := s[1..];
      forall k | 0 <= k < i - 1 ensures IsSpace(u[k]) {
        assert u[k] == s[k + 1];
      }
      LeadingPadding(u, i - 1);
      forall k | 1 <= k < i ensures IntSpace(s[k]) {
        assert s[k] == u[k - 1];
      }
    }
  }

  /** A whitespace suffix of a text that passes `TrailingIntSpace` is `int()` whitespace. */
  lemma {:induction false} TrailingPadding(s: string, j: nat)
    requires TrailingIntSpace(s) && j <= |s|
    requires forall k :: j <= k < |s| ==> IsSpace(s[k])
    ensures forall k :: j <= k < |s| ==> IntSpace(s[k])
  {
    if j < |s| {
      var u := s[..|s| - 1];
      TrailingPadding(u, j);
      forall k | j <= k < |s| - 1 ensures IntSpace(s[k]) {
        assert s[k] == u[k];
      }
    }
  }

  /** `int()` on text already stripped: a signed decimal is read, anything else is `None`. */
  function ParseSigned(t: string): (r: Option<int>)
    ensures r.Some? ==> SignedDecimal(t, r.value)
  {
    if |t| > 0 && (t[0] == '+' || t[0] == '-') then
      var d := t[1..];
      if |d| > 0 && AllDigits(d) then
        var v: int := DigitsValue(d);
        Some(if t[0] == '-' then -v else v)
      else None
    else if |t| > 0 && AllDigits(t) then
      Some(DigitsValue(t))
    else None
  }

  /** `str(n)` for a non-negative integer: decimal digits without leading zeros. */
  function NatToString(n: nat): (r: string)
    ensures |r| >= 1 && AllDigits(r)
    ensures r[0] == '0' ==> n == 0
  {
    if n < 10 then [DigitChar(n)] else NatToString(n / 10) + [DigitChar(n % 10)]
  }

  /** `str(n)` for any integer. */
  function IntToString(n: int): (r: string)
    ensures |r| >= 1
    ensures n >= 0 ==> r == NatToString(n)
  {
    if n >= 0 then NatToString(n) else "-" + NatToString(-n)
  }

  lemma {:induction false} DigitsOfNatToString(n: nat)
    ensures DigitsValue(NatToString(n)) == n
  {
    var s := NatToString(n);
    if n >= 10 {
      DigitsOfNatToString(n / 10);
      assert s[..|s| - 1] == NatToString(n / 10);
    }
  }

  /**
   * What `int()` accepts once the surrounding whitespace is gone: one or more
   * ASCII digits, optionally after a sign, with value `v`.
   */
  predicate SignedDecimal(t: string, v: int) {
    (t != [] && AllDigits(t) && v == DigitsValue(t)) ||
    (|t| >= 2 && t[0] == '+' && AllDigits(t[1..]) && v == DigitsValue(t[1..])) ||
    (|t| >= 2 && t[0] == '-' && AllDigits(t[1..]) && v == -(DigitsValue(t[1..]) as int))
  }

  /** `int()` accepts a signed decimal surrounded by `int()` whitespace, with its value. */
  lemma {:induction false} ParseIntAccepts(front: string, t: string, back: string, v: int)
    requires AllIntSpace(front) && AllIntSpace(back) && SignedDecimal(t, v)
    ensures ParseInt(front + t + back) == Some(v)
  {
    assert IsDigit(t[|t| - 1]);
    assert !IsSpace(t[0]) by { assert t[0] == '+' || t[0] == '-' || IsDigit(t[0]); }
    IntPaddingOf(front, t, back);
    ParseSignedAccepts(t, v);
  }

  /** Around text with non-blank ends, `int()` whitespace is what `strip()` takes off, and all of it. */
  lemma {:induction false} IntPaddingOf(front: string, t: string, back: string)
    requires AllIntSpace(front) && AllIntSpace(back)
    requires t != [] && !IsSpace(t[0]) && !IsSpace(t[|t| - 1])
    ensures var s := front + t + back; LeadingIntSpace(s) && TrailingIntSpace(s) && Strip(s) == t
  {
    var ft := front + t;
    assert ft[|ft| - 1] == t[|t| - 1];
    TrailingOfPadded(ft, back);
    LeadingOfPadded(front, t + back);
    assert front + t + back == front + (t + back);
    StripOfPadded(front, t, back);
  }

  /** `strip()` leaves a run of digits and takes off the whitespace around it. */
  lemma {:induction false} StripOfDigits(front: string, t: string, back: string)
    requires AllSpace(front) && AllSpace(back)
    requires t != [] && AllDigits(t)
    ensures Strip(front + t + back) == t
  {
    assert IsDigit(t[0]) && IsDigit(t[|t| - 1]);
    StripOfPadded(front, t, back);
  }

  /** Every signed decimal is read back with its value. */
  lemma ParseSignedAccepts(t: string, v: int)
    requires SignedDecimal(t, v)
    ensures ParseSigned(t) == Some(v)
  {
  }

  /** Conversely, whatever `int()` accepts is a signed decimal surrounded by `int()` whitespace. */
  lemma {:induction false} ParseIntShape(s: string)
    requires ParseInt(s).Some?
    ensures exists i, j ::
      0 <= i <= j <= |s| && AllIntSpace(s[..i]) && AllIntSpace(s[j..]) && SignedDecimal(s[i..j], ParseInt(s).value)
  {
    var i, j := StripBounds(s);
    LeadingSlice(s, i);
    TrailingSlice(s, j);
  }

  lemma {:induction false} LeadingSlice(s: string, i: nat)
    requires LeadingIntSpace(s) && i <= |s| && AllSpace(s[..i])
    ensures AllIntSpace(s[..i])
  {
    forall k | 0 <= k < i ensures IsSpace(s[k]) {
      assert s[k] == s[..i][k];
    }
    LeadingPadding(s, i);
    forall k | 0 <= k < i ensures IntSpace(s[..i][k]) {
      assert s[..i][k] == s[k];
    }
  }

  lemma {:induction false} TrailingSlice(s: string, j: nat)
    requires TrailingIntSpace(s) && j <= |s| && AllSpace(s[j..])
    ensures AllIntSpace(s[j..])
  {
    forall k | j <= k < |s| ensures IsSpace(s[k]) {
      assert s[k] == s[j..][k - j];
    }
    TrailingPadding(s, j);
    forall k | 0 <= k < |s| - j ensures IntSpace(s[j..][k]) {
      assert s[j..][k] == s[j + k];
    }
  }

  /** `strip()` cuts the text into leading whitespace, the stripped text and trailing whitespace. */
  lemma {:induction false} StripBounds(s: string) returns (i: nat, j: nat)
    ensures i == |s| - |StripLeft(s)| && j == i + |Strip(s)|
    ensures i <= j <= |s| && s[i..j] == Strip(s)
    ensures AllSpace(s[..i]) && AllSpace(s[j..])
  {
    i := |s| - |StripLeft(s)|;
    j := i + |Strip(s)|;
    StripLeftDropsSpace(s);
    SpacePrefix(s, i);
    StripSuffixSpace(s);
  }

  /** Everything after the stripped text is whitespace. */
  lemma {:induction false} StripSuffixSpace(s: string)
    ensures AllSpace(s[|s| - |StripLeft(s)| + |Strip(s)|..])
  {
    TrailingDropped(s, StripLeft(s), |s| - |StripLeft(s)|);
  }

  /** What `rstrip()` drops from a suffix of `s` is whitespace at the end of `s`. */
  lemma {:induction false} TrailingDropped(s: string, l: string, i: nat)
    requires i <= |s| && l == s[i..]
    ensures AllSpace(s[i + |StripRight(l)|..])
  {
    var j := i + |StripRight(l)|;
    StripRightDropsSpace(l);
    forall k | j <= k < |s| ensures IsSpace(s[k]) {
      assert s[k] == l[k - i];
    }
    SpaceSuffix(s, j);
  }

  lemma {:induction false} SpacePrefix(s: string, i: nat)
    requires i <= |s| && forall k :: 0 <= k < i ==> IsSpace(s[k])
    ensures AllSpace(s[..i])
  {
    forall k | 0 <= k < i ensures IsSpace(s[..i][k]) {
      assert s[..i][k] == s[k];
    }
  }

  lemma {:induction false} SpaceSuffix(s: string, j: nat)
    requires j <= |s| && forall k :: j <= k < |s| ==> IsSpace(s[k])
    ensures AllSpace(s[j..])
  {
    forall k | 0 <= k < |s| - j ensures IsSpace(s[j..][k]) {
      assert s[j..][k] == s[j + k];
    }
  }

  /**
   * On stripped text `int()` reads exactly the signed decimal, so stripping
   * first never loses a number `int()` alone would read.
   */
  lemma {:induction false} ParseIntOfStrip(s: string)
    ensures ParseInt(Strip(s)) == ParseSigned(Strip(s))
    ensures ParseInt(s).Some? ==> ParseInt(Strip(s)) == ParseInt(s)
  {
    StrippedIntPadding(Strip(s));
    StripIdempotent(s);
  }

  /** Text with no whitespace at either end has no padding for `int()` to object to. */
  lemma {:induction false} StrippedIntPadding(t: string)
    requires t == [] || (!IsSpace(t[0]) && !IsSpace(t[|t| - 1]))
    ensures LeadingIntSpace(t) && TrailingIntSpace(t)
  {
  }

  /**
   * The converse fails: `strip()` also removes the separators U+001C..U+001F,
   * which `int()` does not skip, so `int("\x1c5")` fails while
   * `int("\x1c5".strip())` is 5.
   */
  lemma SeparatorNotSkipped()
    ensures ParseInt("\U{001C}5") == None
    ensures ParseInt(Strip("\U{001C}5")) == Some(5)
  {
    var s := "\U{001C}5";
    assert !LeadingIntSpace(s);
    assert Strip(s) == "5" by {
      assert s == "\U{001C}" + "5" + [];
      StripOfPadded("\U{001C}", "5", []);
    }
    ParseSignedAccepts("5", 5);
    ParseIntOfStrip(s);
  }

  /** `int(str(n)) == n`, with any `int()` whitespace around the digits. */
  lemma ParseIntOfNatToString(n: nat, front: string, back: string)
    requires AllIntSpace(front) && AllIntSpace(back)
    ensures ParseInt(front + NatToString(n) + back) == Some(n)
  {
    DigitsOfNatToString(n);
    ParseIntAccepts(front, NatToString(n), back, n);
  }

  /** A text with no digit at all is never an integer. */
  lemma ParseIntNeedsDigit(s: string)
    requires forall i :: 0 <= i < |s| ==> !IsDigit(s[i])
    ensures ParseInt(s) == None
  {
    var t := Strip(s);
    if t != [] {
      assert t[|t| - 1] == s[|s| - |StripLeft(s)| + |t| - 1];
    }
    ParseSignedNeedsFinalDigit(t);
  }

  /** A decimal ends in a digit. */
  lemma ParseSignedNeedsFinalDigit(t: string)
    requires t == [] || !IsDigit(t[|t| - 1])
    ensures ParseSigned(t) == None
  {
    if |t| > 1 {
      assert t[1..][|t| - 2] == t[|t| - 1];
    }
  }

  function Pow10(k: nat): (p: nat)
    ensures p >= 1
  {
    if k == 0 then 1 else 10 * Pow10(k - 1)
  }

  /** A number below 10^k has at most k digits. */
  lemma {:induction false} NatToStringLength(n: nat, k: nat)
    requires 1 <= k && n < Pow10(k)
    ensures |NatToString(n)| <= k
  {
    if n >= 10 {
      assert Pow10(1) == 10;
      assert k >= 2;
      assert n / 10 < Pow10(k - 1);
      NatToStringLength(n / 10, k - 1);
    }
  }
}
