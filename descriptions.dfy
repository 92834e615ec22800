/**
 * The service-description table: how one scraped table row becomes an entry
 * `port token -> cleaned description`, and what a whole page of tables does
 * to the descriptions map (rows applied in page order, last write wins).
 * The HTML itself is already reduced to tables of rows of cell texts.
 */
module Descriptions {
  import opened Wrappers
  import opened Text

  /** The text of each `<td>` cell of one `<tr>`. */
  type Row = seq<string>

  /** The rows of one port table, in page order. */
  type Table = seq<Row>

  // ---------------------------------------------------------------------------
  // The port token: regular expression ^\d{1,5}(?:-\d{1,5})?

  /** The number of leading digits of `s`, but at most `max`. */
  function LeadingDigits(s: string, max: nat): (n: nat)
    ensures n <= max && n <= |s|
    ensures forall i :: 0 <= i < n ==> IsDigit(s[i])
    ensures n < max && n < |s| ==> !IsDigit(s[n])
  {
    if max == 0 || s == [] || !IsDigit(s[0]) then 0 else 1 + LeadingDigits(s[1..], max - 1)
  }

  /** One to five decimal digits. */
  predicate DigitRun(t: string) {
    1 <= |t| <= 5 && AllDigits(t)
  }

  /** A single port ("443") or a port range ("6000-6063") as the tables write them. */
  predicate IsPortToken(t: string) {
    DigitRun(t) || exists i :: 0 < i < |t| && t[i] == '-' && DigitRun(t[..i]) && DigitRun(t[i + 1..])
  }

  /**
   * The match of ^\d{1,5}(?:-\d{1,5})? at the start of `s`: there is one
   * exactly when `s` starts with a digit, and it is a port token that is a
   * prefix of `s`.
   */
  function PortToken(s: string): (r: Option<string>)
    ensures r.Some? <==> |s| > 0 && IsDigit(s[0])
    ensures r.Some? ==> IsPortToken(r.value) && r.value <= s
  {
    var a := LeadingDigits(s, 5);
    if a == 0 then None
    else if a < |s| && s[a] == '-' && LeadingDigits(s[a + 1..], 5) > 0 then
      var b := LeadingDigits(s[a + 1..], 5);
      var t := s[..a + 1 + b];
      assert t[..a] == s[..a] && t[a + 1..] == s[a + 1..][..b];
      Some(t)
    else
      Some(s[..a])
  }

  lemma {:induction false} LeadingDigitsOfRun(run: string, rest: string, max: nat)
    requires AllDigits(run) && |run| <= max
    requires |run| == max || rest == [] || !IsDigit(rest[0])
    ensures LeadingDigits(run + rest, max) == |run|
  {
    if run != [] {
      assert (run + rest)[1..] == run[1..] + rest;
      LeadingDigitsOfRun(run[1..], rest, max - 1);
    } else if max > 0 && rest != [] {
      assert run + rest == rest;
    }
  }

  /** A prefix of at most `max` digits is covered by the leading digit run. */
  lemma {:induction false} LeadingDigitsMaximal(s: string, max: nat, n: nat)
    requires n <= max && n <= |s|
    requires forall j :: 0 <= j < n ==> IsDigit(s[j])
    ensures n <= LeadingDigits(s, max)
  {
    if n > 0 {
      LeadingDigitsMaximal(s[1..], max - 1, n - 1);
    }
  }

  /**
   * The match is greedy: no port token that is a prefix of `s` is longer than
   * the one `PortToken` returns, so a "6000-6063" cell keys "6000-6063", not "6000".
   */
  lemma PortTokenLongest(s: string, u: string)
    requires PortToken(s).Some? && u <= s && IsPortToken(u)
    ensures |u| <= |PortToken(s).value|
  {
    if DigitRun(u) {
      LeadingDigitsMaximal(s, 5, |u|);
    } else {
      var i :| 0 < i < |u| && u[i] == '-' && DigitRun(u[..i]) && DigitRun(u[i + 1..]);
      RangeWithinMatch(s, u, i);
    }
  }

  /** A range prefix splits where the leading digit run of `s` ends, and its second run is covered too. */
  lemma RangeWithinMatch(s: string, u: string, i: int)
    requires u <= s && 0 < i < |u| && u[i] == '-' && DigitRun(u[..i]) && DigitRun(u[i + 1..])
    ensures LeadingDigits(s, 5) == i && s[i] == '-'
    ensures |u| - i - 1 <= LeadingDigits(s[i + 1..], 5)
  {
    assert forall j :: 0 <= j < i ==> s[j] == u[..i][j];
    LeadingDigitsMaximal(s, 5, i);
    var m := |u| - i - 1;
    var t, v := s[i + 1..], u[i + 1..];
    assert forall j :: 0 <= j < m ==> t[j] == v[j];
    LeadingDigitsMaximal(t, 5, m);
  }

  /** A cell holding a plain port number yields that number as its key. */
  lemma PortTokenOfRun(run: string)
    requires DigitRun(run)
    ensures PortToken(run) == Some(run)
  {
    LeadingDigitsOfRun(run, [], 5);
    assert run + [] == run;
  }

  /** A cell starting with "start-end" yields the whole range as its key, not just "start". */
  lemma PortTokenOfRange(a: string, b: string, rest: string)
    requires DigitRun(a) && DigitRun(b)
    requires rest == [] || !IsDigit(rest[0])
    ensures PortToken(a + "-" + b + rest) == Some(a + "-" + b)
  {
    var s := a + "-" + b + rest;
    assert s == a + ("-" + b + rest);
    LeadingDigitsOfRun(a, "-" + b + rest, 5);
    assert s[|a|] == '-';
    assert s[|a| + 1..] == b + rest;
    LeadingDigitsOfRun(b, rest, 5);
    assert s[..|a| + 1 + |b|] == a + "-" + b;
  }

  // ---------------------------------------------------------------------------
  // Description cleaning

  /** No '[' is followed, anywhere later, by a ']'. */
  predicate NoBracketPair(s: string) {
    forall i, j :: 0 <= i < j < |s| && s[i] == '[' ==> s[j] != ']'
  }

  /** The position of the first `c` in `s`. */
  function IndexOf(s: string, c: char): (i: nat)
    requires c in s
    ensures i < |s| && s[i] == c && c !in s[..i]
  {
    if s[0] == c then 0 else 1 + IndexOf(s[1..], c)
  }

  /** The length of a "[digits]" marker at the start of `s`, or 0 if there is none. */
  function NumericRefLength(s: string): (n: nat)
    ensures n <= |s|
    ensures n > 0 ==> n >= 3 && s[0] == '[' && s[n - 1] == ']'
    ensures n > 0 ==> forall i :: 1 <= i < n - 1 ==> IsDigit(s[i])
  {
    if |s| > 0 && s[0] == '[' then
      var d := LeadingDigits(s[1..], |s|);
      if d > 0 && d + 1 < |s| && s[d + 1] == ']' then d + 2 else 0
    else 0
  }

  /** A "[digits]" marker at the head of the text is measured to its closing ']'. */
  lemma NumericRefOfMarker(ds: string, z: string)
    requires ds != [] && AllDigits(ds)
    ensures NumericRefLength("[" + ds + "]" + z) == |ds| + 2
  {
    var s := "[" + ds + "]" + z;
    assert s[1..] == ds + ("]" + z);
    LeadingDigitsOfRun(ds, "]" + z, |s|);
  }

  /** Every character of a suffix occurs in the whole. */
  lemma SuffixChars(s: string, k: int)
    requires 0 <= k <= |s|
    ensures forall c :: c in s[k..] ==> c in s
  {
    forall c | c in s[k..] ensures c in s {
      var i :| 0 <= i < |s[k..]| && s[k..][i] == c;
      assert s[k + i] == c;
    }
  }

  /** `strip()` only removes characters. */
  lemma StripChars(s: string)
    ensures forall c :: c in Strip(s) ==> c in s
  {
    var t := Strip(s);
    var k := |s| - |StripLeft(s)|;
    forall c | c in t ensures c in s {
      var i :| 0 <= i < |t| && t[i] == c;
      assert s[k + i] == c;
    }
  }

  lemma ConsNoBracketPair(c: char, r: string)
    requires NoBracketPair(r)
    requires c == '[' ==> ']' !in r
    ensures NoBracketPair([c] + r)
  {
    var s := [c] + r;
    forall i, j | 0 <= i < j < |s| && s[i] == '['
      ensures s[j] != ']'
    {
      assert s[j] == r[j - 1];
      if i > 0 {
        assert s[i] == r[i - 1];
      }
    }
  }

  /**
   * `re.sub(r"\[\d+\]", "", s)`: deletes the footnote markers "[12]" found by
   * one left-to-right scan (a marker that only appears once another is
   * removed stays).
   */
  function RemoveNumericRefs(s: string): (r: string)
    ensures |r| <= |s|
    ensures forall c :: c in r ==> c in s
    ensures '[' !in s ==> r == s
    ensures ']' !in s ==> r == s
    decreases |s|
  {
    if s == [] then []
    else
      var n := NumericRefLength(s);
      if n > 0 then
        SuffixChars(s, n);
        RemoveNumericRefs(s[n..])
      else
        SuffixChars(s, 1);
        assert s == [s[0]] + s[1..];
        [s[0]] + RemoveNumericRefs(s[1..])
  }

  /**
   * `re.sub(r"\[[^\]]*\]", "", s)`: every '[' that has a ']' somewhere after
   * it is deleted together with everything up to the first such ']'. What is
   * left has no '[' followed later by ']'.
   */
  function RemoveBracketed(s: string): (r: string)
    ensures |r| <= |s|
    ensures forall c :: c in r ==> c in s
    ensures NoBracketPair(r)
    ensures '[' !in s ==> r == s
    ensures ']' !in s ==> r == s
    decreases |s|
  {
    if s == [] then []
    else if s[0] == '[' && ']' in s then
      SuffixChars(s, IndexOf(s, ']') + 1);
      RemoveBracketed(s[IndexOf(s, ']') + 1..])
    else
      var r := RemoveBracketed(s[1..]);
      SuffixChars(s, 1);
      assert s == [s[0]] + s[1..];
      ConsNoBracketPair(s[0], r);
      [s[0]] + r
  }

  /** Text without '[' passes through unchanged in front of whatever follows it. */
  lemma {:induction false} NumericRefsKeepPlain(x: string, m: string)
    requires '[' !in x
    ensures RemoveNumericRefs(x + m) == x + RemoveNumericRefs(m)
  {
    if x == [] {
      EmptyAppend(m);
      EmptyAppend(RemoveNumericRefs(m));
    } else {
      var c, y := x[0], x[1..];
      assert x == [c] + y;
      NumericRefsKeepPlain(y, m);
      KeptBeforeMarker(c, y + m);
      AppendAssoc([c], y, m);
      AppendAssoc([c], y, RemoveNumericRefs(m));
    }
  }

  /** A character other than '[' is copied and the scan moves on. */
  lemma KeptBeforeMarker(c: char, t: string)
    requires c != '['
    ensures RemoveNumericRefs([c] + t) == [c] + RemoveNumericRefs(t)
  {
    assert ([c] + t)[1..] == t;
  }

  /** A "[digits]" marker after text without '[' is deleted; the text before it is kept. */
  lemma RemoveNumericRefsMarker(x: string, ds: string, z: string)
    requires '[' !in x && ds != [] && AllDigits(ds)
    ensures RemoveNumericRefs(x + "[" + ds + "]" + z) == x + RemoveNumericRefs(z)
  {
    MarkerRemoved(ds, z);
    NumericRefsKeepPlain(x, "[" + ds + "]" + z);
    AppendAssoc(x, "[", ds);
    AppendAssoc(x, "[" + ds, "]");
    AppendAssoc(x, "[" + ds + "]", z);
  }

  lemma MarkerRemoved(ds: string, z: string)
    requires ds != [] && AllDigits(ds)
    ensures RemoveNumericRefs("[" + ds + "]" + z) == RemoveNumericRefs(z)
  {
    NumericRefOfMarker(ds, z);
    assert ("[" + ds + "]" + z)[|ds| + 2..] == z;
  }

  /** The first `c` comes no later than any occurrence of it. */
  lemma {:induction false} IndexOfAtMost(s: string, c: char, k: int)
    requires 0 <= k < |s| && s[k] == c
    ensures IndexOf(s, c) <= k
  {
    if k > 0 && s[0] != c {
      IndexOfAtMost(s[1..], c, k - 1);
    }
  }

  /** A "[...]" annotation after text without '[' is deleted; the text before it is kept. */
  lemma {:induction false} RemoveBracketedPair(x: string, y: string, z: string)
    requires '[' !in x && ']' !in y
    ensures RemoveBracketed(x + "[" + y + "]" + z) == x + RemoveBracketed(z)
  {
    var s := x + "[" + y + "]" + z;
    if x == [] {
      assert s == "[" + y + "]" + z;
      assert s[|y| + 1] == ']';
      IndexOfAtMost(s, ']', |y| + 1);
      assert forall j :: 0 <= j < |y| + 1 ==> s[j] != ']' by {
        assert forall j :: 1 <= j < |y| + 1 ==> s[j] == y[j - 1];
      }
      assert IndexOf(s, ']') == |y| + 1;
      assert s[|y| + 2..] == z;
    } else {
      assert s[0] == x[0] && s[0] != '[';
      assert s[1..] == x[1..] + "[" + y + "]" + z;
      RemoveBracketedPair(x[1..], y, z);
      assert x == [x[0]] + x[1..];
    }
  }

  /** `s[:-1] if (s and s[-1] == ".") else s`. */
  function DropTrailingDot(s: string): (r: string)
    ensures r <= s && |s| - 1 <= |r|
    ensures |r| < |s| <==> |s| > 0 && s[|s| - 1] == '.'
    ensures |r| < |s| ==> r + "." == s
  {
    if |s| > 0 && s[|s| - 1] == '.' then s[..|s| - 1] else s
  }

  lemma NoBracketPairSlice(s: string, lo: int, hi: int)
    requires NoBracketPair(s) && 0 <= lo <= hi <= |s|
    ensures NoBracketPair(s[lo..hi])
  {
    var t := s[lo..hi];
    forall i, j | 0 <= i < j < |t| && t[i] == '['
      ensures t[j] != ']'
    {
      assert t[i] == s[lo + i] && t[j] == s[lo + j];
    }
  }

  /** The last two passes keep the result free of bracket pairs and only remove characters. */
  lemma StripAndDropDot(s: string)
    ensures forall c :: c in DropTrailingDot(Strip(s)) ==> c in s
    ensures NoBracketPair(s) ==> NoBracketPair(DropTrailingDot(Strip(s)))
  {
    var t := Strip(s);
    var r := DropTrailingDot(t);
    StripChars(s);
    forall c | c in r ensures c in t {
      var i :| 0 <= i < |r| && r[i] == c;
      assert t[i] == c;
    }
    if NoBracketPair(s) {
      var k := |s| - |StripLeft(s)|;
      NoBracketPairSlice(s, k, k + |t|);
      NoBracketPairSlice(t, 0, |r|);
      assert r == t[..|r|];
    }
  }

  /**
   * The cleaned description of a cell: strip, drop "[digits]" markers, drop
   * any other "[...]", strip again, drop one trailing '.'. It is never longer
   * than the cell, uses only the cell's characters, and keeps no
   * bracketed annotation.
   */
  function CleanDescription(cell: string): (r: string)
    ensures |r| <= |cell|
    ensures forall c :: c in r ==> c in cell
    ensures NoBracketPair(r)
    ensures r == [] || !IsSpace(r[0])
  {
    var s3 := RemoveBracketed(RemoveNumericRefs(Strip(cell)));
    StripChars(cell);
    StripAndDropDot(s3);
    DropTrailingDot(Strip(s3))
  }

  /** A description without brackets is only stripped and loses at most one final '.'. */
  lemma CleanPlain(cell: string)
    requires '[' !in cell
    ensures CleanDescription(cell) == DropTrailingDot(Strip(cell))
  {
    StripChars(cell);
    StripIdempotent(cell);
  }

  /** Exactly one trailing '.' is removed: "Text.." cleans to "Text.". */
  lemma CleanRemovesOneDot(body: string)
    requires body != [] && !IsSpace(body[0]) && '[' !in body
    ensures CleanDescription(body + ".") == body
  {
    var cell := body + ".";
    DottedCell(body);
    CleanPlain(cell);
  }

  /** A footnote marker after the text is deleted; the rest is cleaned as a plain cell. */
  lemma CleanWithFootnote(body: string, ds: string)
    requires body != [] && !IsSpace(body[0]) && '[' !in body
    requires ds != [] && AllDigits(ds)
    ensures CleanDescription(body + "[" + ds + "]") == DropTrailingDot(Strip(body))
  {
    FootnoteKept(body, ds);
    FootnoteRemoved(body, ds);
    CleanAfterMarkers(body + "[" + ds + "]", body);
  }

  /** A stripped cell whose markers leave bracket-free text is cleaned as that text. */
  lemma CleanAfterMarkers(cell: string, body: string)
    requires Strip(cell) == cell && RemoveNumericRefs(cell) == body && '[' !in body
    ensures CleanDescription(cell) == DropTrailingDot(Strip(body))
  {
  }

  lemma FootnoteKept(body: string, ds: string)
    requires body != [] && !IsSpace(body[0])
    ensures Strip(body + "[" + ds + "]") == body + "[" + ds + "]"
  {
    var cell := body + "[" + ds + "]";
    assert cell[0] == body[0] && cell[|cell| - 1] == ']';
    StripOfPadded([], cell, []);
    assert [] + cell + [] == cell;
  }

  lemma FootnoteRemoved(body: string, ds: string)
    requires '[' !in body && ds != [] && AllDigits(ds)
    ensures RemoveNumericRefs(body + "[" + ds + "]") == body
  {
    RemoveNumericRefsMarker(body, ds, []);
    AppendEmpty(body + "[" + ds + "]");
    AppendEmpty(body);
  }

  lemma DottedCell(body: string)
    requires body != [] && !IsSpace(body[0]) && '[' !in body
    ensures '[' !in body + "."
    ensures DropTrailingDot(Strip(body + ".")) == body
  {
    var cell := body + ".";
    forall i | 0 <= i < |cell| ensures cell[i] != '[' {
      if i < |body| { assert cell[i] == body[i]; }
    }
    assert Strip(cell) == cell by {
      StripOfPadded([], cell, []);
      assert [] + cell + [] == cell;
    }
    assert |cell| == |body| + 1 && cell[|body|] == '.';
    assert cell[..|body|] == body;
  }

  // ---------------------------------------------------------------------------
  // Rows and tables

  /**
   * The index of the description cell: 5 in six-cell rows, 4 otherwise. A row
   * is read exactly when it has at least five cells, and then that cell exists.
   */
  function DescriptionColumn(cellCount: nat): (c: nat)
    ensures c == 4 || c == 5
    ensures cellCount > c <==> cellCount >= 5
  {
    if cellCount == 6 then 5 else 4
  }

  /**
   * What one row contributes: the key is the port token at the start of the
   * stripped first cell, the value the cleaned description cell. Rows with
   * fewer than five cells, or whose first cell does not start with a digit,
   * contribute nothing.
   */
  function RowEntry(row: Row): (e: Option<(string, string)>)
    ensures e.Some? <==> |row| >= 5 && |Strip(row[0])| > 0 && IsDigit(Strip(row[0])[0])
    ensures e.Some? ==> IsPortToken(e.value.0) && e.value.0 <= Strip(row[0])
    ensures e.Some? ==> PortToken(Strip(row[0])) == Some(e.value.0)
    ensures e.Some? ==> e.value.1 == CleanDescription(row[if |row| == 6 then 5 else 4])
  {
    var col := DescriptionColumn(|row|);
    if |row| > col then
      var port := PortToken(Strip(row[0]));
      var desc := CleanDescription(row[col]);
      if port.Some? then Some((port.value, desc)) else None
    else
      None
  }

  /** An entry one row may produce: (port token, description). */
  type Entry = (string, string)

  /** Whether an entry stores something under `key`. */
  predicate Writes(e: Option<Entry>, key: string) {
    e.Some? && e.value.0 == key
  }

  /** `self.descriptions[key] = desc` for a row that has an entry. */
  function Store(m: map<string, string>, e: Option<Entry>): (r: map<string, string>)
    ensures e.Some? ==> e.value.0 in r && r[e.value.0] == e.value.1
    ensures forall k :: !Writes(e, k) ==> (k in r <==> k in m) && (k in m ==> r[k] == m[k])
  {
    if e.Some? then m[e.value.0 := e.value.1] else m
  }

  /** The map after storing the entries in order; no key is ever removed. */
  function StoreAll(m: map<string, string>, es: seq<Option<Entry>>): (r: map<string, string>)
    ensures m.Keys <= r.Keys
  {
    if es == [] then m else Store(StoreAll(m, es[..|es| - 1]), es[|es| - 1])
  }

  /** `f` applied to each element. */
  function MapSeq<A, B>(f: A -> B, s: seq<A>): (r: seq<B>)
    ensures |r| == |s|
    ensures forall i :: 0 <= i < |s| ==> r[i] == f(s[i])
  {
    if s == [] then [] else MapSeq(f, s[..|s| - 1]) + [f(s[|s| - 1])]
  }

  lemma MapSeqAppend<A, B>(f: A -> B, a: seq<A>, b: seq<A>)
    ensures MapSeq(f, a + b) == MapSeq(f, a) + MapSeq(f, b)
  {
  }

  /** The entries of a table's rows, row by row. */
  function RowEntries(rows: seq<Row>): (es: seq<Option<Entry>>)
    ensures |es| == |rows|
    ensures forall i :: 0 <= i < |rows| ==> es[i] == RowEntry(rows[i])
  {
    MapSeq(RowEntry, rows)
  }

  /** The entries of the whole page: table after table, row after row. */
  function PageEntries(tables: seq<Table>): (es: seq<Option<Entry>>)
    ensures |es| == |Flatten(tables)|
  {
    if tables == [] then [] else PageEntries(tables[..|tables| - 1]) + RowEntries(tables[|tables| - 1])
  }

  /** All rows of the page, in page order. */
  function Flatten(tables: seq<Table>): seq<Row> {
    if tables == [] then [] else Flatten(tables[..|tables| - 1]) + tables[|tables| - 1]
  }

  /** Table boundaries do not matter: the page's entries are those of its rows in order. */
  lemma {:induction false} PageEntriesFlatten(tables: seq<Table>)
    ensures PageEntries(tables) == RowEntries(Flatten(tables))
  {
    if tables != [] {
      var n := |tables|;
      PageEntriesFlatten(tables[..n - 1]);
      MapSeqAppend(RowEntry, Flatten(tables[..n - 1]), tables[n - 1]);
    }
  }

  lemma StoreAllSnoc(m: map<string, string>, es: seq<Option<Entry>>, e: Option<Entry>)
    ensures StoreAll(m, es + [e]) == Store(StoreAll(m, es), e)
  {
    assert (es + [e])[..|es|] == es;
  }

  /** A key is present afterwards exactly when it was before or some entry writes it. */
  lemma {:induction false} StoreAllKeys(m: map<string, string>, es: seq<Option<Entry>>, key: string)
    ensures key in StoreAll(m, es) <==>
      key in m || exists i :: 0 <= i < |es| && Writes(es[i], key)
  {
    if es != [] {
      var n := |es|;
      var init := es[..n - 1];
      StoreAllKeys(m, init, key);
      if exists i :: 0 <= i < n - 1 && Writes(init[i], key) {
        var i :| 0 <= i < n - 1 && Writes(init[i], key);
        assert es[i] == init[i];
      }
      if exists i :: 0 <= i < n && Writes(es[i], key) {
        var i :| 0 <= i < n && Writes(es[i], key);
        if i < n - 1 {
          assert init[i] == es[i];
        }
      }
    }
  }

  /** Last write wins: a key holds the description of the last entry that writes it. */
  lemma {:induction false} LastWriteWins(m: map<string, string>, es: seq<Option<Entry>>, i: int)
    requires 0 <= i < |es| && es[i].Some?
    requires forall j :: i < j < |es| ==> !Writes(es[j], es[i].value.0)
    ensures es[i].value.0 in StoreAll(m, es)
    ensures StoreAll(m, es)[es[i].value.0] == es[i].value.1
  {
    var n := |es|;
    if i < n - 1 {
      var init := es[..n - 1];
      assert init[i] == es[i];
      LastWriteWins(m, init, i);
    }
  }

  /** Keys that no entry writes keep their old presence and value. */
  lemma {:induction false} UnwrittenKeyUnchanged(m: map<string, string>, es: seq<Option<Entry>>, key: string)
    requires forall i :: 0 <= i < |es| ==> !Writes(es[i], key)
    ensures key in StoreAll(m, es) <==> key in m
    ensures key in m ==> StoreAll(m, es)[key] == m[key]
  {
    if es != [] {
      var init := es[..|es| - 1];
      assert forall i :: 0 <= i < |init| ==> init[i] == es[i];
      UnwrittenKeyUnchanged(m, init, key);
    }
  }
}
