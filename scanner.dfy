/**
 * The scanner object: it owns the `descriptions` map, which the scraper fills
 * in place row by row, and a scan reads it while probing.
 */
module Scanner {
  import opened Wrappers
  import opened Text
  import opened Descriptions
  import opened Probe
  import opened Aggregate
  import PortRange

  /** What the JSON cache holds when `fetchServiceInfo` looks at it. */
  datatype Cache =
    | NoFile                                  // the file does not exist
    | EmptyFile                               // it exists with size 0
    | Unreadable                              // it exists but loading it raises
    | Cached(contents: map<string, string>)   // it loads as a port-to-description map

  /** The descriptions in effect after `fetchServiceInfo`, starting from `before`. */
  function Loaded(before: map<string, string>, cache: Cache, page: Option<seq<Table>>): (m: map<string, string>)
    ensures cache.Cached? ==> m == cache.contents
    ensures !cache.Cached? && page.None? ==> m == before
    ensures !cache.Cached? && page.Some? ==> m == StoreAll(before, PageEntries(page.value))
  {
    if cache.Cached? then cache.contents
    else if page.Some? then StoreAll(before, PageEntries(page.value))
    else before
  }

  class PortScanner {
    /** Port key (a port number or a "lo-hi" range, as text) to service description. */
    var descriptions: map<string, string>

    /** A fresh scanner knows no descriptions. */
    constructor ()
      ensures descriptions == map[]
    {
      descriptions := map[];
    }

    /**
     * The scraping loop of `parseData` over the page's tables (already
     * extracted from the HTML): each row with enough cells and a leading port
     * token stores its cleaned description under that token, later rows
     * overwriting earlier ones.
     */
    method ParseData(tables: seq<Table>)
      modifies this
      ensures descriptions == StoreAll(old(descriptions), PageEntries(tables))
    {
      for t := 0 to |tables|
        invariant descriptions == StoreAll(old(descriptions), PageEntries(tables[..t]))
      {
        var rows := tables[t];
        PageStep(tables, t);
        for r := 0 to |rows|
          invariant descriptions == StoreAll(old(descriptions), PageEntries(tables[..t]) + RowEntries(rows[..r]))
        {
          ghost var before := descriptions;
          var cols := rows[r];
          var colCount := if |cols| == 6 then 5 else 4;
          if |cols| > colCount {
            var port := PortToken(Strip(cols[0]));
            var desc := Strip(cols[colCount]);
            desc := RemoveNumericRefs(desc);
            desc := Strip(RemoveBracketed(desc));
            desc := DropTrailingDot(desc);
            if port.Some? {
              descriptions := descriptions[port.value := desc];
            }
            assert desc == CleanDescription(cols[colCount]);
            ParsedRow(before, cols, colCount, port, desc);
          } else {
            ParsedRow(before, cols, colCount, None, "");
          }
          RowStep(old(descriptions), PageEntries(tables[..t]), rows, r);
        }
        PageStep(tables, t);
      }
      assert tables[..|tables|] == tables;
    }

    /**
     * `fetchServiceInfo`: a cache that loads replaces the map; otherwise the
     * page is scraped into it. `page` is `None` when the request failed or
     * did not answer 200, and then the map is left as it was.
     */
    method FetchServiceInfo(cache: Cache, page: Option<seq<Table>>)
      modifies this
      ensures descriptions == Loaded(old(descriptions), cache, page)
    {
      if cache.Cached? {
        descriptions := cache.contents;
      } else if page.Some? {
        ParseData(page.value);
      }
    }

    /**
     * `startScan` once the host is resolved: reset and load the descriptions,
     * resolve the port range from the stripped answer, collect the probe results in completion order
     * and present them. The progress count reaches the number of ports;
     * `ScannedPortsReport` states what the table then shows.
     */
    method StartScan(cache: Cache, page: Option<seq<Table>>, target: Target,
                     rangeInput: string, prompted: string, order: seq<int>)
      returns (progress: nat, report: Report)
      requires multiset(order) == multiset(PortRange.ProcessPortRange(Strip(rangeInput), prompted))
      modifies this
      ensures descriptions == Loaded(map[], cache, page)
      ensures report == Present(OpenResults(descriptions, target, order))
      ensures progress == |PortRange.ProcessPortRange(Strip(rangeInput), prompted)|
    {
      descriptions := map[];
      FetchServiceInfo(cache, page);
      var ports := PortRange.ProcessPortRange(Strip(rangeInput), prompted);
      var found;
      progress, found := CollectResults(descriptions, target, ports, order);
      report := Present(found);
    }
  }

  /**
   * What a scan shows: for the ports the stripped range answer resolves to, whatever
   * the completion order, the notice appears exactly when none of them
   * accepted the connection, and otherwise the table lists exactly the ports
   * that did, ascending and numbered from 1, each with its description.
   */
  lemma ScannedPortsReport(descriptions: map<string, string>, target: Target,
                           rangeInput: string, prompted: string, order: seq<int>)
    requires multiset(order) == multiset(PortRange.ProcessPortRange(Strip(rangeInput), prompted))
    ensures var ports := PortRange.ProcessPortRange(Strip(rangeInput), prompted);
      var report := Present(OpenResults(descriptions, target, order));
      && (report.NoOpenPorts? <==> forall p :: p in ports ==> target.connect(p) != Returned(0))
      && (report.Table? ==>
        (forall i, j :: 0 <= i < j < |report.rows| ==> report.rows[i].port < report.rows[j].port) &&
        (forall i :: 0 <= i < |report.rows| ==>
           report.rows[i].index == i + 1 && report.rows[i].port in ports &&
           target.connect(report.rows[i].port) == Returned(0) &&
           report.rows[i].description == Describe(descriptions, report.rows[i].port)) &&
        (forall p :: p in ports && target.connect(p) == Returned(0) ==>
           exists i :: 0 <= i < |report.rows| && report.rows[i].port == p))
  {
    var ports := PortRange.ProcessPortRange(Strip(rangeInput), prompted);
    PortsNoDuplicates(ports);
    ReportEmpty(descriptions, target, ports, order);
    ReportTable(descriptions, target, ports, order);
  }

  /** Storing a row's entry is what the scraping loop does with the row, step by step. */
  lemma ParsedRow(m: map<string, string>, cols: Row, colCount: nat, port: Option<string>, desc: string)
    requires colCount == if |cols| == 6 then 5 else 4
    requires |cols| > colCount ==> port == PortToken(Strip(cols[0]))
    requires |cols| > colCount ==> desc == CleanDescription(cols[colCount])
    requires |cols| <= colCount ==> port == None
    ensures Store(m, RowEntry(cols)) == if port.Some? then m[port.value := desc] else m
  {
    ScannedEntry(cols, colCount, port, desc);
    StoreScanned(m, RowEntry(cols), port, desc);
  }

  lemma StoreScanned(m: map<string, string>, e: Option<Entry>, port: Option<string>, desc: string)
    requires e == if port.Some? then Some((port.value, desc)) else None
    ensures Store(m, e) == if port.Some? then m[port.value := desc] else m
  {
  }

  lemma ScannedEntry(cols: Row, colCount: nat, port: Option<string>, desc: string)
    requires colCount == if |cols| == 6 then 5 else 4
    requires |cols| > colCount ==> port == PortToken(Strip(cols[0]))
    requires |cols| > colCount ==> desc == CleanDescription(cols[colCount])
    requires |cols| <= colCount ==> port == None
    ensures RowEntry(cols) == if port.Some? then Some((port.value, desc)) else None
  {
  }

  /** Storing one more row's entry extends the prefix of the page that has been stored. */
  lemma RowStep(m: map<string, string>, es: seq<Option<Entry>>, rows: seq<Row>, r: int)
    requires 0 <= r < |rows|
    ensures StoreAll(m, es + RowEntries(rows[..r + 1])) == Store(StoreAll(m, es + RowEntries(rows[..r])), RowEntry(rows[r]))
  {
    assert rows[..r + 1] == rows[..r] + [rows[r]];
    MapSeqAppend(RowEntry, rows[..r], [rows[r]]);
    assert es + RowEntries(rows[..r + 1]) == es + RowEntries(rows[..r]) + [RowEntry(rows[r])];
    StoreAllSnoc(m, es + RowEntries(rows[..r]), RowEntry(rows[r]));
  }

  /** Before a table's rows are read, nothing of it is stored; after them, all of it. */
  lemma PageStep(tables: seq<Table>, t: int)
    requires 0 <= t < |tables|
    ensures PageEntries(tables[..t]) + RowEntries(tables[t][..0]) == PageEntries(tables[..t])
    ensures PageEntries(tables[..t]) + RowEntries(tables[t][..|tables[t]|]) == PageEntries(tables[..t + 1])
  {
    assert RowEntries(tables[t][..0]) == [];
    assert tables[t][..|tables[t]|] == tables[t];
    assert tables[..t + 1][..t] == tables[..t];
  }
}
