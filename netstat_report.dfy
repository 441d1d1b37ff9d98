/**
  The whole `--netstat` pass: every block the scanner hands on is read as
  a connection table and aggregated on its own, with a fresh count.
*/
module NetstatReport {
  import opened Timestamps
  import opened NetstatBlocks
  import opened Connections

  /** What `printnetstat(nsdt, ...)` works out for one block before its lookups and printing. */
  datatype HostReport = HostReport(at: int, hosts: seq<string>, counts: map<string, nat>)

  /** The report of one block: its opening time, and the counts and ordering of its own rows only. */
  ghost predicate ReportOf(table: seq<string> -> seq<ConnRow>, b: Block, rep: HostReport) {
    && rep.at == b.openTs
    && CountsOf(table(b.lines), rep.counts)
    && multiset(rep.hosts) == multiset(rep.counts.Keys)
    && SortedByTuple(rep.hosts)
  }

  /**
    The netstat loop with the hand-off at each closing line. `table` stands
    for the table reader that turns a block's buffered lines into rows.
  */
  method ScanAndAggregate(parse: Parser, table: seq<string> -> seq<ConnRow>, lines: seq<string>)
    returns (reports: seq<HostReport>)
    ensures |reports| == |Blocks(parse, Epoch, lines)|
    ensures forall i :: 0 <= i < |reports| ==> ReportOf(table, Blocks(parse, Epoch, lines)[i], reports[i])
  {
    var blocks := ScanNetstat(parse, lines);
    reports := AggregateEach(table, blocks);
  }

  /** `printnetstat(nsdt, block)` up to its lookups and printing: the block's own rows, counted and sorted. */
  method Report(table: seq<string> -> seq<ConnRow>, b: Block) returns (rep: HostReport)
    ensures ReportOf(table, b, rep)
  {
    var hosts, counts := Aggregate(table(b.lines));
    rep := HostReport(b.openTs, hosts, counts);
  }

  /** `printnetstat` on each block in turn, each with a fresh count. */
  method AggregateEach(table: seq<string> -> seq<ConnRow>, blocks: seq<Block>) returns (reports: seq<HostReport>)
    ensures |reports| == |blocks|
    ensures forall i :: 0 <= i < |reports| ==> ReportOf(table, blocks[i], reports[i])
  {
    reports := [];
    var i := 0;
    while i < |blocks|
      invariant 0 <= i <= |blocks| && |reports| == i
      invariant forall j :: 0 <= j < i ==> ReportOf(table, blocks[j], reports[j])
    {
      var rep := Report(table, blocks[i]);
      reports := reports + [rep];
      i := i + 1;
    }
  }
}
