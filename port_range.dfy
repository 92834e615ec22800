/**
 * Port-range resolution: the user's answer to the "Port range" prompt becomes
 * the sequence of ports to probe. The resolver never fails; anything it cannot
 * use selects the built-in default list.
 */
module PortRange {
  import opened Wrappers
  import opened Text

  const MinPort: int := 1
  const MaxPort: int := 65535

  /** The 34 commonly probed ports, in their declared order. */
  const DefaultPorts: seq<int> := [
    21, 22, 23, 25, 38, 43, 80, 109, 110, 115, 118, 119, 143,
    194, 220, 443, 540, 585, 591, 1112, 1433, 1443, 3128, 3197,
    3306, 4000, 4333, 5100, 5432, 6669, 8000, 8080, 9014, 9200
  ]

  predicate StrictlyAscending(ps: seq<int>) {
    forall i, j :: 0 <= i < j < |ps| ==> ps[i] < ps[j]
  }

  predicate InPortBounds(ps: seq<int>) {
    forall i :: 0 <= i < |ps| ==> MinPort <= ps[i] <= MaxPort
  }

  /** What every answer of the resolver is: a non-empty, ascending, duplicate-free list of valid ports. */
  predicate WellFormedPorts(ps: seq<int>) {
    |ps| > 0 && StrictlyAscending(ps) && InPortBounds(ps)
  }

  /** Python's `range(lo, hi)`. */
  function Range(lo: int, hi: int): (r: seq<int>)
    ensures |r| == if lo <= hi then hi - lo else 0
    ensures forall i :: 0 <= i < |r| ==> r[i] == lo + i
  {
    if lo < hi then seq(hi - lo, i => lo + i) else []
  }

  /** A list whose every entry is below the next is strictly ascending. */
  lemma {:induction false} AdjacentAscending(ps: seq<int>)
    requires forall i :: 0 <= i < |ps| - 1 ==> ps[i] < ps[i + 1]
    ensures StrictlyAscending(ps)
  {
    if |ps| > 1 {
      AdjacentAscending(ps[1..]);
      forall j | 1 <= j < |ps| ensures ps[0] < ps[j] {
        if j > 1 { assert ps[1..][0] < ps[1..][j - 1]; }
      }
    }
  }

  /** Each default port is below the next. */
  lemma DefaultPortsAdjacent()
    ensures |DefaultPorts| == 34
    ensures forall i :: 0 <= i < |DefaultPorts| - 1 ==> DefaultPorts[i] < DefaultPorts[i + 1]
    ensures DefaultPorts[0] == 21 && DefaultPorts[33] == 9200
  {
  }

  /** An ascending list lies within the bounds of its first and last entries. */
  lemma AscendingInBounds(ps: seq<int>)
    requires |ps| > 0 && StrictlyAscending(ps)
    requires MinPort <= ps[0] && ps[|ps| - 1] <= MaxPort
    ensures InPortBounds(ps)
  {
    forall i | 0 <= i < |ps| ensures MinPort <= ps[i] <= MaxPort {
      if 0 < i { assert ps[0] < ps[i]; }
      if i < |ps| - 1 { assert ps[i] < ps[|ps| - 1]; }
    }
  }

  /** The default list has 34 entries, ascending, all valid ports. */
  lemma DefaultPortsWellFormed()
    ensures |DefaultPorts| == 34
    ensures WellFormedPorts(DefaultPorts)
  {
    DefaultPortsAdjacent();
    AdjacentAscending(DefaultPorts);
    AscendingInBounds(DefaultPorts);
  }

  /** An inclusive range of valid ports is a well-formed answer. */
  lemma RangeWellFormed(lo: int, hi: int)
    requires MinPort <= lo <= hi <= MaxPort
    ensures WellFormedPorts(Range(lo, hi + 1))
  {
  }

  /** `self.defaultPorts`, the answer whenever no mode applies. */
  function Fallback(): (ps: seq<int>)
    ensures WellFormedPorts(ps)
  {
    DefaultPortsWellFormed();
    DefaultPorts
  }

  lemma SingletonWellFormed(p: int)
    requires MinPort <= p <= MaxPort
    ensures WellFormedPorts([p])
  {
  }

  /** Mode "1": the prompted port alone when `int()` reads it as a valid port. */
  function SinglePortMode(prompted: string): (ps: seq<int>)
    ensures WellFormedPorts(ps)
  {
    var p := ParseInt(Strip(prompted));
    if p.Some? && MinPort <= p.value <= MaxPort then
      SingletonWellFormed(p.value);
      [p.value]
    else Fallback()
  }

  /** Mode "2": every port. */
  function FullRangeMode(): (ps: seq<int>)
    ensures WellFormedPorts(ps)
  {
    RangeWellFormed(MinPort, MaxPort);
    Range(MinPort, MaxPort + 1)
  }

  /** Mode "start-end": both sides must be integers with 1 <= start <= end <= 65535. */
  function CustomRangeMode(input: string): (ps: seq<int>)
    ensures WellFormedPorts(ps)
  {
    var parts := Split(input, '-');
    if |parts| == 2 then RangeOrDefault(ParseInt(parts[0]), ParseInt(parts[1])) else Fallback()
  }

  /**
   * The two converted ends of a custom range: the inclusive range when both
   * converted and bound a non-empty span of valid ports, the default list
   * otherwise (`None` is the `ValueError` of a failed conversion).
   */
  function RangeOrDefault(start: Option<int>, end: Option<int>): (ps: seq<int>)
    ensures WellFormedPorts(ps)
  {
    if start.Some? && end.Some? && MinPort <= start.value <= end.value <= MaxPort then
      RangeWellFormed(start.value, end.value);
      Range(start.value, end.value + 1)
    else
      Fallback()
  }

  function ProcessPortRange(input: string, prompted: string): (ports: seq<int>)
    ensures WellFormedPorts(ports)
  {
    if input == [] || Lower(input) == "default" then Fallback()
    else if input == "1" then SinglePortMode(prompted)
    else if input == "2" then FullRangeMode()
    else if '-' in input then CustomRangeMode(input)
    else Fallback()
  }

  /** An empty answer, or "default" in any letter case, gives the default list. */
  lemma DefaultSelection(input: string, prompted: string)
    requires input == [] || (|input| == 7 && forall i :: 0 <= i < 7 ==> LowerChar(input[i]) == "default"[i])
    ensures ProcessPortRange(input, prompted) == DefaultPorts
    ensures |ProcessPortRange(input, prompted)| == 34
  {
    if input != [] {
      assert Lower(input) == "default";
    }
  }

  /** "2" selects every port 1..65535 in ascending order. */
  lemma FullRange(prompted: string)
    ensures var ps := ProcessPortRange("2", prompted);
      |ps| == 65535 && forall i :: 0 <= i < |ps| ==> ps[i] == i + 1
  {
    assert Lower("2") != "default";
  }

  /** "1" probes the prompted port alone when it is an integer in 1..65535, else the default list. */
  lemma SinglePort(prompted: string)
    ensures var p := ParseInt(Strip(prompted));
      ProcessPortRange("1", prompted) ==
        if p.Some? && 1 <= p.value <= 65535 then [p.value] else DefaultPorts
  {
    assert Lower("1") != "default";
  }

  /** The port is written in decimal, with any whitespace `strip()` removes before `int()` reads it. */
  lemma SinglePortTyped(p: nat, front: string, back: string)
    requires 1 <= p <= 65535
    requires AllSpace(front) && AllSpace(back)
    ensures ProcessPortRange("1", front + NatToString(p) + back) == [p]
  {
    var typed := front + NatToString(p) + back;
    StripOfDigits(front, NatToString(p), back);
    DigitsOfNatToString(p);
    ParseSignedAccepts(NatToString(p), p);
    ParseIntOfStrip(typed);
    SinglePort(typed);
  }

  lemma NotDefaultKeyword(input: string, i: int)
    requires 0 <= i < |input| && input[i] == '-'
    ensures Lower(input) != "default"
  {
    assert Lower(input)[i] == '-';
  }

  /**
   * "start-end" with exactly one dash: the inclusive range when both sides are
   * integers with 1 <= start <= end <= 65535, otherwise the default list.
   */
  lemma CustomRange(x: string, y: string, prompted: string)
    requires '-' !in x && '-' !in y
    ensures var a, b := ParseInt(x), ParseInt(y);
      ProcessPortRange(x + "-" + y, prompted) ==
        if a.Some? && b.Some? && 1 <= a.value <= b.value <= 65535
        then Range(a.value, b.value + 1)
        else DefaultPorts
  {
    var input := x + "-" + y;
    DashAnswer(x, y);
    assert ProcessPortRange(input, prompted) == CustomRangeMode(input);
    CustomRangeOfParts(input, x, y);
    RangeOrDefaultChoice(ParseInt(x), ParseInt(y));
  }

  /** An answer with one dash between dash-free halves takes the custom-range branch, split in two. */
  lemma DashAnswer(x: string, y: string)
    requires '-' !in x && '-' !in y
    ensures var input := x + "-" + y;
      && input != [] && Lower(input) != "default" && input != "1" && input != "2"
      && '-' in input && Split(input, '-') == [x, y]
  {
    var input := x + "-" + y;
    assert input[|x|] == '-';
    NotDefaultKeyword(input, |x|);
    assert input != "1" && input != "2";
    SplitAtFirst(x, '-', y);
    SplitNone(y, '-');
  }

  /** The custom-range branch converts the two halves of the answer. */
  lemma CustomRangeOfParts(input: string, x: string, y: string)
    requires Split(input, '-') == [x, y]
    ensures CustomRangeMode(input) == RangeOrDefault(ParseInt(x), ParseInt(y))
  {
  }

  /** The range is chosen exactly when both ends converted and bound valid ports. */
  lemma RangeOrDefaultChoice(a: Option<int>, b: Option<int>)
    ensures RangeOrDefault(a, b) ==
      if a.Some? && b.Some? && 1 <= a.value <= b.value <= 65535
      then Range(a.value, b.value + 1)
      else DefaultPorts
  {
  }

  /** More than one dash is never a range: the default list. */
  lemma TooManyDashes(input: string, prompted: string)
    requires Count(input, '-') >= 2
    ensures ProcessPortRange(input, prompted) == DefaultPorts
  {
    assert '-' in input;
    var i :| 0 <= i < |input| && input[i] == '-';
    NotDefaultKeyword(input, i);
    assert input != "1" && input != "2";
  }

  /** An answer other than "", "default", "1", "2" and without a dash gives the default list. */
  lemma Unrecognized(input: string, prompted: string)
    requires input != [] && Lower(input) != "default" && input != "1" && input != "2"
    requires '-' !in input
    ensures ProcessPortRange(input, prompted) == DefaultPorts
  {
  }

  /** Any valid range typed in decimal as "a-b" probes exactly a..b. */
  lemma TypedRange(a: nat, b: nat, prompted: string)
    requires 1 <= a <= b <= 65535
    ensures ProcessPortRange(NatToString(a) + "-" + NatToString(b), prompted) == Range(a, b + 1)
  {
    var x, y := NatToString(a), NatToString(b);
    DecimalRendering(a);
    DecimalRendering(b);
    CustomRange(x, y, prompted);
  }

  /** `str(n)` has no dash and `int()` reads it back. */
  lemma DecimalRendering(n: nat)
    ensures '-' !in NatToString(n)
    ensures ParseInt(NatToString(n)) == Some(n)
  {
    var s := NatToString(n);
    assert forall i :: 0 <= i < |s| ==> s[i] != '-' by {
      assert forall i :: 0 <= i < |s| ==> IsDigit(s[i]);
    }
    assert ParseInt(s) == Some(n) by {
      ParseIntOfNatToString(n, [], []);
      assert [] + s + [] == s;
    }
  }

  /**
   * A separator U+001C..U+001F before the dash is not part of the stripped
   * answer's ends, and `int()` does not skip it: "80\x1c-443" is the default list.
   */
  lemma {:induction false} SeparatorInRange(prompted: string)
    ensures ProcessPortRange("80\U{001C}-443", prompted) == DefaultPorts
  {
    var x, y := "80\U{001C}", "443";
    assert x + "-" + y == "80\U{001C}-443";
    assert !TrailingIntSpace(x);
    UnreadableLow(x, y, prompted);
  }

  lemma {:induction false} UnreadableLow(x: string, y: string, prompted: string)
    requires '-' !in x && '-' !in y && ParseInt(x) == None
    ensures ProcessPortRange(x + "-" + y, prompted) == DefaultPorts
  {
    CustomRange(x, y, prompted);
  }

  /** The usage example: "80-443" probes the 364 ports 80..443. */
  lemma HttpRangeExample(input: string, prompted: string)
    requires input == "80-443"
    ensures ProcessPortRange(input, prompted) == Range(80, 444)
    ensures |ProcessPortRange(input, prompted)| == 364
  {
    assert NatToString(80) + "-" + NatToString(443) == input;
    TypedRange(80, 443, prompted);
  }

  /**
   * The fallback is observable: the resolver answers the default list exactly
   * when no mode applies, since no selected range or single port equals it.
   */
  lemma RangeIsNotDefault(a: int, b: int)
    requires 1 <= a <= b <= 65535
    ensures Range(a, b + 1) != DefaultPorts
  {
    var r := Range(a, b + 1);
    if |r| == 34 {
      assert r[0] == a && r[3] == a + 3;
      assert DefaultPorts[0] == 21 && DefaultPorts[3] == 25;
    }
  }
}
