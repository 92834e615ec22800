/**
 * Result aggregation in `startScan`: every probe that completes advances the
 * progress count, every open-port row is appended to `foundServices`, and the
 * table shown at the end is `foundServices` sorted by port and numbered from 1.
 * Probes complete in an order the scanner does not control; here that order
 * is any permutation of the probed ports, and the loop runs sequentially.
 */
module Aggregate {
  import opened Wrappers
  import opened Probe
  import PortRange
  import Text

  /** What the network and the OS answer for each port of the resolved host. */
  datatype Target = Target(host: string, connect: int -> Connect, service: int -> Option<string>)

  /** The result of probing `port` on the target. */
  function ProbeResult(descriptions: map<string, string>, target: Target, port: int): (r: Option<Found>)
    ensures r.Some? <==> target.connect(port) == Returned(0)
    ensures r.Some? ==> r.value.port == port && r.value.host == target.host
  {
    ScanPort(descriptions, target.host, port, target.connect(port), target.service(port))
  }

  /** The rows one probe adds to `foundServices`: its row if it found the port open, none otherwise. */
  function Collected(result: Option<Found>): (rows: seq<Found>)
    ensures |rows| <= 1
  {
    if result.Some? then [result.value] else []
  }

  /** The rows appended to `foundServices` when the probes complete in `order`. */
  function OpenResults(descriptions: map<string, string>, target: Target, order: seq<int>): (rs: seq<Found>)
    ensures |rs| <= |order|
  {
    if order == [] then []
    else
      OpenResults(descriptions, target, order[..|order| - 1]) +
      Collected(ProbeResult(descriptions, target, order[|order| - 1]))
  }

  /**
   * The `as_completed` loop: `order` is the order in which the probes of
   * `ports` complete. Returns the final progress count and `foundServices`.
   */
  method CollectResults(descriptions: map<string, string>, target: Target, ports: seq<int>, order: seq<int>)
    returns (progress: nat, found: seq<Found>)
    requires multiset(order) == multiset(ports)
    ensures progress == |ports|
    ensures found == OpenResults(descriptions, target, order)
  {
    progress := 0;
    found := [];
    for k := 0 to |order|
      invariant progress == k
      invariant found == OpenResults(descriptions, target, order[..k])
    {
      var port := order[k];
      var result := ScanPort(descriptions, target.host, port, target.connect(port), target.service(port));
      assert order[..k + 1][..k] == order[..k];
      progress := progress + 1;
      if result.Some? {
        found := found + [result.value];
      }
    }
    assert order[..|order|] == order;
    assert |order| == |multiset(order)| == |multiset(ports)| == |ports|;
  }

  // ---------------------------------------------------------------------------
  // What is collected

  lemma {:induction false} OpenResultsAppend(descriptions: map<string, string>, target: Target, a: seq<int>, b: seq<int>)
    ensures OpenResults(descriptions, target, a + b) ==
      OpenResults(descriptions, target, a) + OpenResults(descriptions, target, b)
  {
    if b == [] {
      assert a + b == a;
      Text.AppendEmpty(OpenResults(descriptions, target, a));
    } else {
      var n := |b|;
      var x := b[n - 1];
      assert (a + b)[..|a + b| - 1] == a + b[..n - 1];
      assert (a + b)[|a + b| - 1] == x;
      OpenResultsAppend(descriptions, target, a, b[..n - 1]);
      Text.AppendAssoc(OpenResults(descriptions, target, a), OpenResults(descriptions, target, b[..n - 1]),
        Collected(ProbeResult(descriptions, target, x)));
    }
  }

  /** Every collected row is the probe result of a probed port, and every open probed port is collected. */
  lemma {:induction false} OpenResultsContent(descriptions: map<string, string>, target: Target, ps: seq<int>)
    ensures forall f :: f in OpenResults(descriptions, target, ps) ==>
      f.port in ps && ProbeResult(descriptions, target, f.port) == Some(f)
    ensures forall p :: p in ps && target.connect(p) == Returned(0) ==>
      ProbeResult(descriptions, target, p).value in OpenResults(descriptions, target, ps)
  {
    if ps != [] {
      var init := ps[..|ps| - 1];
      OpenResultsContent(descriptions, target, init);
      assert forall p :: p in init ==> p in ps;
      assert forall p :: p in ps ==> p in init || p == ps[|ps| - 1] by {
        assert ps == init + [ps[|ps| - 1]];
      }
    }
  }

  /** The completion order does not change which rows are collected, only their order. */
  lemma {:induction false} OpenResultsPermutation(descriptions: map<string, string>, target: Target,
                                                 order: seq<int>, ports: seq<int>)
    requires multiset(order) == multiset(ports)
    ensures multiset(OpenResults(descriptions, target, order)) == multiset(OpenResults(descriptions, target, ports))
    decreases |ports|
  {
    if ports == [] {
      assert |order| == |multiset(order)| == 0;
    } else {
      var n := |ports|;
      var x := ports[n - 1];
      assert ports == ports[..n - 1] + [x];
      assert x in multiset(order);
      var j :| 0 <= j < |order| && order[j] == x;
      var rest := order[..j] + order[j + 1..];
      assert multiset(rest) == multiset(ports[..n - 1]) by {
        assert order == order[..j] + [x] + order[j + 1..];
        assert multiset(order) == multiset(order[..j]) + multiset{x} + multiset(order[j + 1..]);
        assert multiset(ports) == multiset(ports[..n - 1]) + multiset{x};
        MultisetCancel(multiset(rest), multiset(ports[..n - 1]), x);
      }
      OpenResultsPermutation(descriptions, target, rest, ports[..n - 1]);
      OpenResultsRemove(descriptions, target, order, j);
      OpenResultsAppend(descriptions, target, ports[..n - 1], [x]);
    }
  }

  /** Taking one completion out of the order takes exactly its row out of the collection. */
  lemma OpenResultsRemove(descriptions: map<string, string>, target: Target, order: seq<int>, j: int)
    requires 0 <= j < |order|
    ensures multiset(OpenResults(descriptions, target, order)) ==
      multiset(OpenResults(descriptions, target, order[..j] + order[j + 1..])) +
      multiset(OpenResults(descriptions, target, [order[j]]))
  {
    var before, x, after := order[..j], order[j], order[j + 1..];
    assert order == before + [x] + after;
    OpenResultsAppend(descriptions, target, before + [x], after);
    OpenResultsAppend(descriptions, target, before, [x]);
    OpenResultsAppend(descriptions, target, before, after);
  }

  lemma MultisetCancel<T>(a: multiset<T>, b: multiset<T>, x: T)
    requires a + multiset{x} == b + multiset{x}
    ensures a == b
  {
    forall y ensures a[y] == b[y] {
      assert (a + multiset{x})[y] == (b + multiset{x})[y];
    }
  }

  /** No element occurs twice. */
  predicate NoDuplicates<T(==)>(s: seq<T>) {
    forall i, j :: 0 <= i < j < |s| ==> s[i] != s[j]
  }

  predicate DistinctPorts(fs: seq<Found>) {
    forall i, j :: 0 <= i < j < |fs| ==> fs[i].port != fs[j].port
  }

  /** Each port is probed once, so each collected row has its own port. */
  lemma {:induction false} OpenResultsDistinct(descriptions: map<string, string>, target: Target, ps: seq<int>)
    requires NoDuplicates(ps)
    ensures DistinctPorts(OpenResults(descriptions, target, ps))
  {
    if ps != [] {
      var init := ps[..|ps| - 1];
      var last := ps[|ps| - 1];
      assert NoDuplicates(init);
      OpenResultsDistinct(descriptions, target, init);
      OpenResultsContent(descriptions, target, init);
      assert last !in init;
    }
  }

  lemma {:induction false} NoDuplicatesMultiplicity<T>(s: seq<T>)
    requires NoDuplicates(s)
    ensures forall x :: multiset(s)[x] <= 1
  {
    if s != [] {
      var init := s[..|s| - 1];
      assert s == init + [s[|s| - 1]];
      NoDuplicatesMultiplicity(init);
      assert s[|s| - 1] !in init;
    }
  }

  lemma TwoOccurrences<T>(s: seq<T>, i: int, j: int)
    requires 0 <= i < j < |s|
    ensures s[i] == s[j] ==> multiset(s)[s[i]] >= 2
  {
    assert s == s[..i] + [s[i]] + s[i + 1..j] + [s[j]] + s[j + 1..];
  }

  /** A permutation of a duplicate-free sequence is duplicate-free. */
  lemma PermutationNoDuplicates<T>(order: seq<T>, ports: seq<T>)
    requires multiset(order) == multiset(ports) && NoDuplicates(ports)
    ensures NoDuplicates(order)
  {
    NoDuplicatesMultiplicity(ports);
    forall i, j | 0 <= i < j < |order| ensures order[i] != order[j] {
      TwoOccurrences(order, i, j);
    }
  }

  // ---------------------------------------------------------------------------
  // The displayed table

  predicate SortedByPort(fs: seq<Found>) {
    forall i, j :: 0 <= i < j < |fs| ==> fs[i].port <= fs[j].port
  }

  predicate StrictlyAscendingPorts(fs: seq<Found>) {
    forall i, j :: 0 <= i < j < |fs| ==> fs[i].port < fs[j].port
  }

  /** Inserts `f` after every row whose port is not larger (so equal ports keep their order). */
  function InsertByPort(f: Found, s: seq<Found>): (r: seq<Found>)
    requires SortedByPort(s)
    ensures |r| == |s| + 1
    ensures SortedByPort(r)
    ensures multiset(r) == multiset(s) + multiset{f}
  {
    if s == [] then [f]
    else if f.port < s[0].port then [f] + s
    else
      var r := InsertByPort(f, s[1..]);
      assert s == [s[0]] + s[1..];
      InsertedBound(s[0], f, s[1..], r);
      [s[0]] + r
  }

  lemma InsertedBound(x: Found, f: Found, s: seq<Found>, r: seq<Found>)
    requires SortedByPort([x] + s) && x.port <= f.port
    requires SortedByPort(r) && multiset(r) == multiset(s) + multiset{f}
    ensures SortedByPort([x] + r)
  {
    forall g | g in r ensures x.port <= g.port {
      assert g in multiset(r);
      if g != f {
        assert g in multiset(s);
        var k :| 0 <= k < |s| && s[k] == g;
        assert ([x] + s)[0] == x && ([x] + s)[k + 1] == g;
        assert ([x] + s)[0].port <= ([x] + s)[k + 1].port;
      }
    }
    forall i, j | 0 <= i < j < |[x] + r| ensures ([x] + r)[i].port <= ([x] + r)[j].port {
      if i > 0 {
        assert ([x] + r)[i] == r[i - 1] && ([x] + r)[j] == r[j - 1];
      } else {
        assert ([x] + r)[j] in r;
      }
    }
  }

  /** `sorted(found, key = lambda x: x[0])`: the same rows, ordered by port. */
  function SortByPort(fs: seq<Found>): (r: seq<Found>)
    ensures |r| == |fs|
    ensures SortedByPort(r)
    ensures multiset(r) == multiset(fs)
  {
    if fs == [] then []
    else
      assert fs == fs[..|fs| - 1] + [fs[|fs| - 1]];
      InsertByPort(fs[|fs| - 1], SortByPort(fs[..|fs| - 1]))
  }

  /** Two strictly ascending sequences with the same rows are the same sequence. */
  lemma {:induction false} AscendingUnique(a: seq<Found>, b: seq<Found>)
    requires StrictlyAscendingPorts(a) && StrictlyAscendingPorts(b)
    requires multiset(a) == multiset(b)
    ensures a == b
    decreases |a|
  {
    if a == [] {
      assert |b| == |multiset(b)| == 0;
    } else {
      AscendingHeads(a, b);
      assert a == [a[0]] + a[1..] && b == [b[0]] + b[1..];
      assert multiset(a) == multiset(a[1..]) + multiset{a[0]};
      assert multiset(b) == multiset(b[1..]) + multiset{a[0]};
      MultisetCancel(multiset(a[1..]), multiset(b[1..]), a[0]);
      AscendingTail(a);
      AscendingTail(b);
      AscendingUnique(a[1..], b[1..]);
    }
  }

  lemma AscendingHeads(a: seq<Found>, b: seq<Found>)
    requires StrictlyAscendingPorts(a) && StrictlyAscendingPorts(b)
    requires multiset(a) == multiset(b) && a != []
    ensures b != [] && a[0] == b[0]
  {
    assert a[0] in multiset(b);
    var i :| 0 <= i < |b| && b[i] == a[0];
    assert b[0] in multiset(a);
    var j :| 0 <= j < |a| && a[j] == b[0];
    assert a[0].port <= a[j].port && b[0].port <= b[i].port;
    assert i == 0;
  }

  lemma AscendingTail(a: seq<Found>)
    requires StrictlyAscendingPorts(a) && a != []
    ensures StrictlyAscendingPorts(a[1..])
  {
    forall i, j | 0 <= i < j < |a[1..]| ensures a[1..][i].port < a[1..][j].port {
      assert a[1..][i] == a[i + 1] && a[1..][j] == a[j + 1];
    }
  }

  lemma SortedDistinctAscending(fs: seq<Found>)
    requires SortedByPort(fs) && DistinctPorts(fs)
    ensures StrictlyAscendingPorts(fs)
  {
  }

  /** Reordering rows keeps their ports distinct. */
  lemma DistinctPortsPermutation(a: seq<Found>, b: seq<Found>)
    requires multiset(a) == multiset(b) && DistinctPorts(a)
    ensures DistinctPorts(b)
  {
    assert NoDuplicates(a);
    PermutationNoDuplicates(b, a);
    forall i, j | 0 <= i < j < |b| ensures b[i].port != b[j].port {
      assert b[i] in multiset(b) && b[j] in multiset(b);
      var k :| 0 <= k < |a| && a[k] == b[i];
      var l :| 0 <= l < |a| && a[l] == b[j];
      assert k != l;
      if k < l {
        assert a[k].port != a[l].port;
      } else {
        assert a[l].port != a[k].port;
      }
    }
  }

  /** One line of the results table: `(№, port, service, description)`. */
  datatype DisplayRow = DisplayRow(index: int, port: int, service: string, description: string)

  /** The end of a scan: a table of open ports, or the "No open ports found" notice. */
  datatype Report = NoOpenPorts | Table(rows: seq<DisplayRow>)

  /** `enumerate(rows, 1)`, keeping port, service and description (the host is not shown). */
  function Enumerate(fs: seq<Found>): (rows: seq<DisplayRow>)
    ensures |rows| == |fs|
    ensures forall i :: 0 <= i < |fs| ==> rows[i].index == i + 1 && rows[i].port == fs[i].port
    ensures forall i :: 0 <= i < |fs| ==> rows[i].service == fs[i].service && rows[i].description == fs[i].description
  {
    seq(|fs|, i requires 0 <= i < |fs| => DisplayRow(i + 1, fs[i].port, fs[i].service, fs[i].description))
  }

  /** What is shown for `foundServices`. */
  function Present(found: seq<Found>): (r: Report)
    ensures r.NoOpenPorts? <==> found == []
    ensures r.Table? ==> |r.rows| == |found|
  {
    if found == [] then NoOpenPorts else Table(Enumerate(SortByPort(found)))
  }

  /** The rows of the table before numbering: `foundServices` sorted by port. */
  function Shown(descriptions: map<string, string>, target: Target, order: seq<int>): (rows: seq<Found>)
    ensures SortedByPort(rows)
    ensures multiset(rows) == multiset(OpenResults(descriptions, target, order))
  {
    SortByPort(OpenResults(descriptions, target, order))
  }

  /**
   * The sorted rows, whatever the completion order: strictly ascending ports,
   * each row the probe result of a probed port, every open probed port present.
   */
  lemma ShownRows(descriptions: map<string, string>, target: Target, ports: seq<int>, order: seq<int>)
    requires NoDuplicates(ports) && multiset(order) == multiset(ports)
    ensures StrictlyAscendingPorts(Shown(descriptions, target, order))
    ensures forall f :: f in Shown(descriptions, target, order) ==>
      f.port in ports && ProbeResult(descriptions, target, f.port) == Some(f)
    ensures forall p :: p in ports && target.connect(p) == Returned(0) ==>
      ProbeResult(descriptions, target, p).value in Shown(descriptions, target, order)
  {
    var found := OpenResults(descriptions, target, order);
    var sorted := Shown(descriptions, target, order);
    PermutationNoDuplicates(order, ports);
    OpenResultsDistinct(descriptions, target, order);
    OpenResultsContent(descriptions, target, order);
    DistinctPortsPermutation(found, sorted);
    SortedDistinctAscending(sorted);
    assert forall p :: p in order <==> p in ports by {
      assert forall p :: p in order <==> p in multiset(order);
    }
    assert forall f :: f in sorted <==> f in found by {
      assert forall f :: f in sorted <==> f in multiset(sorted);
    }
  }

  /** The displayed table does not depend on the order in which probes complete. */
  lemma ReportIndependentOfOrder(descriptions: map<string, string>, target: Target,
                                 ports: seq<int>, order1: seq<int>, order2: seq<int>)
    requires NoDuplicates(ports)
    requires multiset(order1) == multiset(ports) && multiset(order2) == multiset(ports)
    ensures Present(OpenResults(descriptions, target, order1)) == Present(OpenResults(descriptions, target, order2))
  {
    var f1, f2 := OpenResults(descriptions, target, order1), OpenResults(descriptions, target, order2);
    OpenResultsPermutation(descriptions, target, order1, ports);
    OpenResultsPermutation(descriptions, target, order2, ports);
    ShownRows(descriptions, target, ports, order1);
    ShownRows(descriptions, target, ports, order2);
    AscendingUnique(Shown(descriptions, target, order1), Shown(descriptions, target, order2));
    assert f1 == [] <==> f2 == [] by {
      assert |f1| == |multiset(f1)| == |multiset(f2)| == |f2|;
    }
  }

  /** The "No open ports found" notice appears exactly when no probed port accepted the connection. */
  lemma ReportEmpty(descriptions: map<string, string>, target: Target, ports: seq<int>, order: seq<int>)
    requires NoDuplicates(ports) && multiset(order) == multiset(ports)
    ensures Present(OpenResults(descriptions, target, order)).NoOpenPorts? <==>
      forall p :: p in ports ==> target.connect(p) != Returned(0)
  {
    var found := OpenResults(descriptions, target, order);
    ShownRows(descriptions, target, ports, order);
    var sorted := Shown(descriptions, target, order);
    assert |sorted| == |multiset(sorted)| == |multiset(found)| == |found|;
    if found != [] {
      assert sorted[0].port in ports;
    }
  }

  /**
   * The table shown after a scan: rows numbered 1..n with strictly ascending
   * ports, one row for each probed port that accepted the connection, with
   * that port's service name and description, and no other row.
   */
  lemma ReportTable(descriptions: map<string, string>, target: Target, ports: seq<int>, order: seq<int>)
    requires NoDuplicates(ports) && multiset(order) == multiset(ports)
    ensures var r := Present(OpenResults(descriptions, target, order));
      r.Table? ==>
        && (forall i :: 0 <= i < |r.rows| ==> r.rows[i].index == i + 1)
        && (forall i, j :: 0 <= i < j < |r.rows| ==> r.rows[i].port < r.rows[j].port)
        && (forall i :: 0 <= i < |r.rows| ==>
              r.rows[i].port in ports && target.connect(r.rows[i].port) == Returned(0) &&
              r.rows[i].description == Describe(descriptions, r.rows[i].port) &&
              r.rows[i].service == target.service(r.rows[i].port).GetOr(UnknownService))
        && (forall p :: p in ports && target.connect(p) == Returned(0) ==>
              exists i :: 0 <= i < |r.rows| && r.rows[i].port == p)
  {
    var found := OpenResults(descriptions, target, order);
    if found != [] {
      ShownRows(descriptions, target, ports, order);
      EnumeratedRows(descriptions, target, ports, Shown(descriptions, target, order));
    }
  }

  /**
   * Numbering rows that are strictly ascending, each the probe result of a
   * probed port, and cover every open probed port, gives a table with those
   * properties row by row.
   */
  lemma EnumeratedRows(descriptions: map<string, string>, target: Target, ports: seq<int>, sorted: seq<Found>)
    requires StrictlyAscendingPorts(sorted)
    requires forall f :: f in sorted ==> f.port in ports && ProbeResult(descriptions, target, f.port) == Some(f)
    requires forall p :: p in ports && target.connect(p) == Returned(0) ==>
      ProbeResult(descriptions, target, p).value in sorted
    ensures var rows := Enumerate(sorted);
      && (forall i :: 0 <= i < |rows| ==> rows[i].index == i + 1)
      && (forall i, j :: 0 <= i < j < |rows| ==> rows[i].port < rows[j].port)
      && (forall i :: 0 <= i < |rows| ==>
            rows[i].port in ports && target.connect(rows[i].port) == Returned(0) &&
            rows[i].description == Describe(descriptions, rows[i].port) &&
            rows[i].service == target.service(rows[i].port).GetOr(UnknownService))
      && (forall p :: p in ports && target.connect(p) == Returned(0) ==>
            exists i :: 0 <= i < |rows| && rows[i].port == p)
  {
    var rows := Enumerate(sorted);
    forall p | p in ports && target.connect(p) == Returned(0)
      ensures exists i :: 0 <= i < |rows| && rows[i].port == p
    {
      var g := ProbeResult(descriptions, target, p).value;
      var i :| 0 <= i < |sorted| && sorted[i] == g;
      assert rows[i].port == p;
    }
    forall i | 0 <= i < |rows|
      ensures rows[i].port in ports && target.connect(rows[i].port) == Returned(0)
      ensures rows[i].description == Describe(descriptions, rows[i].port)
      ensures rows[i].service == target.service(rows[i].port).GetOr(UnknownService)
    {
      assert sorted[i] in sorted;
    }
  }

  /** The order example: rows completing for ports 443, 80, 22 are shown as 22, 80, 443. */
  lemma SortExample(a: Found, b: Found, c: Found)
    requires a.port == 443 && b.port == 80 && c.port == 22
    ensures SortByPort([a, b, c]) == [c, b, a]
  {
    ReversedThree(a, b, c);
    SortedPermutationUnique([a, b, c], SortByPort([a, b, c]), [c, b, a]);
  }

  lemma ReversedThree(a: Found, b: Found, c: Found)
    requires a.port == 443 && b.port == 80 && c.port == 22
    ensures DistinctPorts([a, b, c]) && SortedByPort([c, b, a])
    ensures multiset([c, b, a]) == multiset([a, b, c])
  {
  }

  /** Rows with distinct ports have exactly one arrangement sorted by port. */
  lemma SortedPermutationUnique(fs: seq<Found>, s: seq<Found>, t: seq<Found>)
    requires DistinctPorts(fs)
    requires multiset(s) == multiset(fs) && SortedByPort(s)
    requires multiset(t) == multiset(fs) && SortedByPort(t)
    ensures s == t
  {
    DistinctPortsPermutation(fs, s);
    DistinctPortsPermutation(fs, t);
    SortedDistinctAscending(s);
    SortedDistinctAscending(t);
    AscendingUnique(s, t);
  }

  lemma PortsNoDuplicates(ports: seq<int>)
    requires PortRange.StrictlyAscending(ports)
    ensures NoDuplicates(ports)
  {
  }
}
