/**
  The `--netstat` scan of the details file: a two-state scanner that opens
  a block at a timestamped `netstat` line more than fifteen minutes after
  the previously opened block, buffers the lines without a timestamp that
  follow, and hands the block on when the next timestamped line closes it.
*/
module NetstatBlocks {
  import opened Wrappers
  import Strings
  import opened Timestamps

  const Marker := "netstat"

  /** `chknetstat(row)`: the line's timestamp when its head parses and its third single-space token is `netstat`. */
  function ChkNetstat(parse: Parser, line: string): Option<int>
  {
    match parse(Head(line))
    case None => None
    case Some(t) =>
      var tokens := Strings.Split(line, ' ');
      if |tokens| >= 3 && tokens[2] == Marker then Some(t) else None
  }

  /** `chkevent(row)`: the line starts a new event, its head parses as a timestamp. */
  predicate ChkEvent(parse: Parser, line: string) {
    parse(Head(line)).Some?
  }

  /** A netstat line is itself timestamped, so it closes any open block, and it carries its head's time. */
  lemma NetstatIsEvent(parse: Parser, line: string)
    ensures ChkNetstat(parse, line).Some? ==> ChkEvent(parse, line) && ChkNetstat(parse, line) == parse(Head(line))
  {
  }

  /** Only the first 19 characters decide whether a line is an event; whatever follows them is never read. */
  lemma EventReadsHeadOnly(parse: Parser, line: string, rest: string)
    requires |line| >= Width
    ensures ChkEvent(parse, line + rest) == ChkEvent(parse, line)
  {
    assert Head(line + rest) == (line + rest)[..Width] == line[..Width] == Head(line);
  }

  /** A captured netstat block: the opening line's timestamp and the lines buffered after it. */
  datatype Block = Block(openTs: int, lines: seq<string>)

  /** `state`: 'search' or 'found'. */
  datatype GrouperMode = Searching | InBlock

  /** `state`, `nsdt`, `ns`, and the blocks handed on so far. */
  datatype GrouperState = GrouperState(mode: GrouperMode, nsdt: int, ns: seq<string>, blocks: seq<Block>)

  const GrouperStart := GrouperState(Searching, Epoch, [], [])

  /** The timestamp at which the line opens a block, given the previous opening time. */
  function Opens(parse: Parser, last: int, line: string): (r: Option<int>)
    ensures r.Some? <==> ChkNetstat(parse, line).Some? && ChkNetstat(parse, line).value - last > NetstatFilter
    ensures r.Some? ==> r == ChkNetstat(parse, line)
  {
    match ChkNetstat(parse, line)
    case None => None
    case Some(t) => if t - last > NetstatFilter then Some(t) else None
  }

  /** The body of the scan loop for one line. */
  function GrouperStep(parse: Parser, st: GrouperState, line: string): GrouperState
  {
    match st.mode
    case Searching =>
      (match Opens(parse, st.nsdt, line)
       case Some(t) => GrouperState(InBlock, t, [], st.blocks)
       case None => st)
    case InBlock =>
      if !ChkEvent(parse, line) then st.(ns := st.ns + [line])
      else st.(mode := Searching, blocks := st.blocks + [Block(st.nsdt, st.ns)])
  }

  function GrouperRun(parse: Parser, st: GrouperState, lines: seq<string>): GrouperState
    decreases |lines|
  {
    if |lines| == 0 then st else GrouperRun(parse, GrouperStep(parse, st, lines[0]), lines[1..])
  }

  /**
    A block is handed on only when a timestamped line ends it, and it is the
    buffer with its opening time. A block opens only at a line that passes
    the filter, with an empty buffer.
  */
  lemma GrouperStepBlocks(parse: Parser, st: GrouperState, line: string)
    ensures var r := GrouperStep(parse, st, line);
      && (r.blocks != st.blocks <==> st.mode == InBlock && ChkEvent(parse, line))
      && (r.blocks != st.blocks ==> r.blocks == st.blocks + [Block(st.nsdt, st.ns)] && r.mode == Searching)
      && (st.mode == Searching && r.mode == InBlock ==> Opens(parse, st.nsdt, line) == Some(r.nsdt) && r.ns == [])
  {
  }

  /** Blocks once handed on are never taken back. */
  lemma {:induction false} GrouperRunGrows(parse: Parser, st: GrouperState, lines: seq<string>)
    ensures st.blocks <= GrouperRun(parse, st, lines).blocks
    decreases |lines|
  {
    if |lines| > 0 {
      GrouperStepBlocks(parse, st, lines[0]);
      GrouperRunGrows(parse, GrouperStep(parse, st, lines[0]), lines[1..]);
    }
  }

  lemma {:induction false} GrouperRunSnoc(parse: Parser, st: GrouperState, lines: seq<string>, line: string)
    ensures GrouperRun(parse, st, lines + [line]) == GrouperStep(parse, GrouperRun(parse, st, lines), line)
    decreases |lines|
  {
    if |lines| > 0 {
      assert (lines + [line])[1..] == lines[1..] + [line];
      GrouperRunSnoc(parse, GrouperStep(parse, st, lines[0]), lines[1..], line);
    }
  }

  /** How many lines at the front carry no timestamp. */
  function Untimestamped(parse: Parser, lines: seq<string>): (n: nat)
    ensures n <= |lines|
    ensures forall j :: 0 <= j < n ==> !ChkEvent(parse, lines[j])
    ensures n < |lines| ==> ChkEvent(parse, lines[n])
    decreases |lines|
  {
    if |lines| == 0 || ChkEvent(parse, lines[0]) then 0 else 1 + Untimestamped(parse, lines[1..])
  }

  /**
    The blocks of a log, described directly: skip to the first line that
    opens a block, take the run of untimestamped lines after it, and, if a
    timestamped line ends that run, emit the block and continue after that
    closing line. A block still open at the end of the log is not emitted.
  */
  function Blocks(parse: Parser, last: int, lines: seq<string>): seq<Block>
    decreases |lines|
  {
    if |lines| == 0 then []
    else match Opens(parse, last, lines[0])
      case None => Blocks(parse, last, lines[1..])
      case Some(t) =>
        var n := Untimestamped(parse, lines[1..]);
        if 1 + n == |lines| then []
        else [Block(t, lines[1..1 + n])] + Blocks(parse, t, lines[2 + n..])
  }

  /** Each block uses up at least its opening and its closing line. */
  lemma {:induction false} BlocksCount(parse: Parser, last: int, lines: seq<string>)
    ensures 2 * |Blocks(parse, last, lines)| <= |lines|
    decreases |lines|
  {
    if |lines| > 0 {
      match Opens(parse, last, lines[0])
      case None =>
        BlocksCount(parse, last, lines[1..]);
      case Some(t) =>
        var n := Untimestamped(parse, lines[1..]);
        if 1 + n < |lines| {
          BlocksCount(parse, t, lines[2 + n..]);
        }
    }
  }

  /** Blocks, one line at a time: a line that opens nothing is skipped. */
  lemma BlocksSkip(parse: Parser, last: int, lines: seq<string>)
    requires |lines| > 0 && Opens(parse, last, lines[0]).None?
    ensures Blocks(parse, last, lines) == Blocks(parse, last, lines[1..])
  {
  }

  /** Blocks, one line at a time: an opening line starts the block that runs to the next timestamped line. */
  lemma BlocksOpen(parse: Parser, last: int, lines: seq<string>, t: int)
    requires |lines| > 0 && Opens(parse, last, lines[0]) == Some(t)
    ensures var n := Untimestamped(parse, lines[1..]);
      Blocks(parse, last, lines) ==
        if 1 + n == |lines| then [] else [Block(t, lines[1..1 + n])] + Blocks(parse, t, lines[2 + n..])
  {
  }

  lemma {:induction false} SearchingRun(parse: Parser, last: int, ns: seq<string>, done: seq<Block>, lines: seq<string>)
    ensures GrouperRun(parse, GrouperState(Searching, last, ns, done), lines).blocks == done + Blocks(parse, last, lines)
    decreases |lines|, 0
  {
    if |lines| > 0 {
      var st := GrouperState(Searching, last, ns, done);
      assert GrouperRun(parse, st, lines) == GrouperRun(parse, GrouperStep(parse, st, lines[0]), lines[1..]);
      var opens := Opens(parse, last, lines[0]);
      if opens.None? {
        assert GrouperStep(parse, st, lines[0]) == st;
        BlocksSkip(parse, last, lines);
        SearchingRun(parse, last, ns, done, lines[1..]);
      } else {
        var t := opens.value;
        assert GrouperStep(parse, st, lines[0]) == GrouperState(InBlock, t, [], done);
        InBlockRun(parse, t, [], done, lines[1..]);
        BlocksOpen(parse, last, lines, t);
        var rest := lines[1..];
        var n := Untimestamped(parse, rest);
        if n < |rest| {
          assert [] + rest[..n] == lines[1..1 + n];
          assert rest[n + 1..] == lines[2 + n..];
          var b := Block(t, lines[1..1 + n]);
          var more := Blocks(parse, t, lines[2 + n..]);
          assert done + [b] + more == done + ([b] + more);
        }
      }
    }
  }

  lemma {:induction false} InBlockRun(parse: Parser, t: int, ns: seq<string>, done: seq<Block>, lines: seq<string>)
    ensures var n := Untimestamped(parse, lines);
      GrouperRun(parse, GrouperState(InBlock, t, ns, done), lines).blocks ==
        if n == |lines| then done else done + [Block(t, ns + lines[..n])] + Blocks(parse, t, lines[n + 1..])
    decreases |lines|, 1
  {
    if |lines| > 0 {
      if ChkEvent(parse, lines[0]) {
        InBlockClose(parse, t, ns, done, lines);
        SearchingRun(parse, t, ns, done + [Block(t, ns)], lines[1..]);
      } else {
        InBlockExtend(parse, t, ns, done, lines);
        InBlockRun(parse, t, ns + [lines[0]], done, lines[1..]);
      }
    }
  }

  /** In a block, a timestamped line hands the buffer on and goes back to searching. */
  lemma InBlockClose(parse: Parser, t: int, ns: seq<string>, done: seq<Block>, lines: seq<string>)
    requires |lines| > 0 && ChkEvent(parse, lines[0])
    ensures GrouperRun(parse, GrouperState(InBlock, t, ns, done), lines) == GrouperRun(parse, GrouperState(Searching, t, ns, done + [Block(t, ns)]), lines[1..])
    ensures Untimestamped(parse, lines) == 0 && ns + lines[..0] == ns
  {
  }

  /** In a block, an untimestamped line joins the buffer. */
  lemma InBlockExtend(parse: Parser, t: int, ns: seq<string>, done: seq<Block>, lines: seq<string>)
    requires |lines| > 0 && !ChkEvent(parse, lines[0])
    ensures GrouperRun(parse, GrouperState(InBlock, t, ns, done), lines) == GrouperRun(parse, GrouperState(InBlock, t, ns + [lines[0]], done), lines[1..])
    ensures var n := Untimestamped(parse, lines[1..]);
      && Untimestamped(parse, lines) == n + 1
      && (n < |lines| - 1 ==> ns + [lines[0]] + lines[1..][..n] == ns + lines[..n + 1] && lines[1..][n + 1..] == lines[n + 2..])
  {
    var n := Untimestamped(parse, lines[1..]);
    if n < |lines| - 1 {
      ShiftSlices(ns, lines, n);
    }
  }

  /** Buffering the first element, then n more, is buffering the first n + 1. */
  lemma ShiftSlices<T>(ns: seq<T>, xs: seq<T>, n: nat)
    requires n < |xs| - 1
    ensures ns + [xs[0]] + xs[1..][..n] == ns + xs[..n + 1]
    ensures xs[1..][n + 1..] == xs[n + 2..]
  {
    assert [xs[0]] + xs[1..][..n] == xs[..n + 1];
  }

  /** The scanner run over a whole log hands on exactly the blocks the direct description names. */
  lemma ScannerMatchesBlocks(parse: Parser, lines: seq<string>)
    ensures GrouperRun(parse, GrouperStart, lines).blocks == Blocks(parse, Epoch, lines)
  {
    SearchingRun(parse, Epoch, [], [], lines);
  }

  /** Block openings are more than NSFILTER apart, and the first is more than NSFILTER after `last`. */
  ghost predicate Spaced(last: int, blocks: seq<Block>) {
    && (|blocks| > 0 ==> blocks[0].openTs - last > NetstatFilter)
    && (forall i :: 1 <= i < |blocks| ==> blocks[i].openTs - blocks[i - 1].openTs > NetstatFilter)
  }

  /** Block b sits in the log at index k: an opening netstat line, b's lines, then a timestamped closing line. */
  ghost predicate FramedAt(parse: Parser, lines: seq<string>, b: Block, k: int) {
    && 0 <= k
    && k + 1 + |b.lines| < |lines|
    && ChkNetstat(parse, lines[k]) == Some(b.openTs)
    && lines[k + 1..k + 1 + |b.lines|] == b.lines
    && ChkEvent(parse, lines[k + 1 + |b.lines|])
  }

  lemma FramedShift(parse: Parser, lines: seq<string>, d: nat, b: Block, k: nat)
    requires d <= |lines| && FramedAt(parse, lines[d..], b, k)
    ensures FramedAt(parse, lines, b, k + d)
  {
    assert lines[d..][k + 1..k + 1 + |b.lines|] == lines[k + d + 1..k + d + 1 + |b.lines|];
  }

  /** Block openings are spaced by more than NSFILTER. */
  lemma {:induction false} BlocksSpaced(parse: Parser, last: int, lines: seq<string>)
    ensures Spaced(last, Blocks(parse, last, lines))
    decreases |lines|
  {
    if |lines| > 0 {
      var opens := Opens(parse, last, lines[0]);
      if opens.None? {
        BlocksSkip(parse, last, lines);
        BlocksSpaced(parse, last, lines[1..]);
      } else {
        var t := opens.value;
        BlocksOpen(parse, last, lines, t);
        var n := Untimestamped(parse, lines[1..]);
        if 1 + n < |lines| {
          BlocksSpaced(parse, t, lines[2 + n..]);
          SpacedCons(last, Block(t, lines[1..1 + n]), Blocks(parse, t, lines[2 + n..]));
        }
      }
    }
  }

  lemma SpacedCons(last: int, b: Block, rest: seq<Block>)
    requires b.openTs - last > NetstatFilter && Spaced(b.openTs, rest)
    ensures Spaced(last, [b] + rest)
  {
    var bs := [b] + rest;
    forall i | 1 <= i < |bs| ensures bs[i].openTs - bs[i - 1].openTs > NetstatFilter {
      assert bs[i] == rest[i - 1];
      if i > 1 {
        assert bs[i - 1] == rest[i - 2];
      }
    }
  }

  /** No line of any block carries a timestamp. */
  ghost predicate AllUntimestamped(parse: Parser, bs: seq<Block>) {
    forall i, j :: 0 <= i < |bs| && 0 <= j < |bs[i].lines| ==> !ChkEvent(parse, bs[i].lines[j])
  }

  /** So no block holds its own opening or closing line, both of which are timestamped. */
  lemma {:induction false} BlocksUntimestamped(parse: Parser, last: int, lines: seq<string>)
    ensures AllUntimestamped(parse, Blocks(parse, last, lines))
    decreases |lines|
  {
    if |lines| > 0 {
      var opens := Opens(parse, last, lines[0]);
      if opens.None? {
        BlocksSkip(parse, last, lines);
        BlocksUntimestamped(parse, last, lines[1..]);
      } else {
        var t := opens.value;
        BlocksOpen(parse, last, lines, t);
        var n := Untimestamped(parse, lines[1..]);
        if 1 + n < |lines| {
          BlocksUntimestamped(parse, t, lines[2 + n..]);
          UntimestampedCons(parse, Block(t, lines[1..1 + n]), Blocks(parse, t, lines[2 + n..]));
        }
      }
    }
  }

  lemma UntimestampedCons(parse: Parser, b: Block, rest: seq<Block>)
    requires forall j :: 0 <= j < |b.lines| ==> !ChkEvent(parse, b.lines[j])
    requires AllUntimestamped(parse, rest)
    ensures AllUntimestamped(parse, [b] + rest)
  {
    var bs := [b] + rest;
    forall i, j | 0 <= i < |bs| && 0 <= j < |bs[i].lines| ensures !ChkEvent(parse, bs[i].lines[j]) {
      if i > 0 {
        assert bs[i] == rest[i - 1];
      }
    }
  }

  /** Block i sits in the log at index ks[i]. */
  ghost predicate FramedBy(parse: Parser, lines: seq<string>, bs: seq<Block>, ks: seq<int>) {
    |ks| == |bs| && forall i :: 0 <= i < |bs| ==> FramedAt(parse, lines, bs[i], ks[i])
  }

  /** Each block's closing line comes strictly before the next block's opening line. */
  ghost predicate InOrder(bs: seq<Block>, ks: seq<int>)
    requires |ks| == |bs|
  {
    forall i :: 1 <= i < |bs| ==> ks[i - 1] + 1 + |bs[i - 1].lines| < ks[i]
  }

  function Shifted(ks: seq<int>, d: int): (r: seq<int>)
    ensures |r| == |ks| && forall i :: 0 <= i < |ks| ==> r[i] == ks[i] + d
  {
    seq(|ks|, i requires 0 <= i < |ks| => ks[i] + d)
  }

  lemma FramedByShift(parse: Parser, lines: seq<string>, d: nat, bs: seq<Block>, ks: seq<int>)
    requires d <= |lines| && FramedBy(parse, lines[d..], bs, ks) && InOrder(bs, ks)
    ensures FramedBy(parse, lines, bs, Shifted(ks, d)) && InOrder(bs, Shifted(ks, d))
  {
    forall i | 0 <= i < |bs| ensures FramedAt(parse, lines, bs[i], Shifted(ks, d)[i]) {
      FramedShift(parse, lines, d, bs[i], ks[i]);
    }
  }

  /**
    Every emitted block is framed in the log by its opening netstat line and
    a timestamped closing line, and the blocks appear in the log in order
    without overlapping: a closing line is never itself taken as an opener.
  */
  lemma {:induction false} BlocksFramed(parse: Parser, last: int, lines: seq<string>) returns (ks: seq<int>)
    ensures FramedBy(parse, lines, Blocks(parse, last, lines), ks)
    ensures InOrder(Blocks(parse, last, lines), ks)
    ensures forall i :: 0 <= i < |ks| ==> 0 <= ks[i]
    decreases |lines|
  {
    ks := [];
    if |lines| > 0 {
      var opens := Opens(parse, last, lines[0]);
      if opens.None? {
        BlocksSkip(parse, last, lines);
        var ks1 := BlocksFramed(parse, last, lines[1..]);
        FramedByShift(parse, lines, 1, Blocks(parse, last, lines), ks1);
        ks := Shifted(ks1, 1);
      } else {
        var t := opens.value;
        BlocksOpen(parse, last, lines, t);
        var n := Untimestamped(parse, lines[1..]);
        if 1 + n < |lines| {
          var ks1 := BlocksFramed(parse, t, lines[2 + n..]);
          ks := FramedOpen(parse, last, lines, t, ks1);
        }
      }
    }
  }

  /** The block a line opens is framed at index 0, ahead of the blocks framed after its closing line. */
  lemma FramedOpen(parse: Parser, last: int, lines: seq<string>, t: int, ks1: seq<int>) returns (ks: seq<int>)
    requires |lines| > 0 && Opens(parse, last, lines[0]) == Some(t)
    requires 1 + Untimestamped(parse, lines[1..]) < |lines|
    requires var n := Untimestamped(parse, lines[1..]);
      FramedBy(parse, lines[2 + n..], Blocks(parse, t, lines[2 + n..]), ks1) && InOrder(Blocks(parse, t, lines[2 + n..]), ks1)
    requires forall i :: 0 <= i < |ks1| ==> 0 <= ks1[i]
    ensures var n := Untimestamped(parse, lines[1..]);
      var bs := [Block(t, lines[1..1 + n])] + Blocks(parse, t, lines[2 + n..]);
      FramedBy(parse, lines, bs, ks) && InOrder(bs, ks)
    ensures forall i :: 0 <= i < |ks| ==> 0 <= ks[i]
  {
    var n := Untimestamped(parse, lines[1..]);
    var head := Block(t, lines[1..1 + n]);
    var rest := Blocks(parse, t, lines[2 + n..]);
    FramedByShift(parse, lines, 2 + n, rest, ks1);
    assert FramedAt(parse, lines, head, 0) by {
      assert lines[1 + n] == lines[1..][n];
      assert ChkNetstat(parse, lines[0]) == Some(t);
    }
    ks := FramedCons(parse, lines, head, rest, Shifted(ks1, 2 + n));
  }

  /** A block framed at the front of the log, ahead of blocks framed after its closing line. */
  lemma FramedCons(parse: Parser, lines: seq<string>, b: Block, rest: seq<Block>, ks: seq<int>) returns (all: seq<int>)
    requires FramedAt(parse, lines, b, 0) && FramedBy(parse, lines, rest, ks) && InOrder(rest, ks)
    requires forall i :: 0 <= i < |ks| ==> 1 + |b.lines| < ks[i]
    ensures all == [0] + ks
    ensures FramedBy(parse, lines, [b] + rest, all) && InOrder([b] + rest, all)
  {
    all := [0] + ks;
    FramedByCons(parse, lines, b, rest, ks);
    InOrderCons(b, rest, ks);
  }

  lemma FramedByCons(parse: Parser, lines: seq<string>, b: Block, rest: seq<Block>, ks: seq<int>)
    requires FramedAt(parse, lines, b, 0) && FramedBy(parse, lines, rest, ks)
    ensures FramedBy(parse, lines, [b] + rest, [0] + ks)
  {
    var bs, all := [b] + rest, [0] + ks;
    forall i | 0 <= i < |bs| ensures FramedAt(parse, lines, bs[i], all[i]) {
      if i > 0 {
        assert bs[i] == rest[i - 1] && all[i] == ks[i - 1];
      }
    }
  }

  lemma InOrderCons(b: Block, rest: seq<Block>, ks: seq<int>)
    requires |ks| == |rest| && InOrder(rest, ks)
    requires forall i :: 0 <= i < |ks| ==> 1 + |b.lines| < ks[i]
    ensures InOrder([b] + rest, [0] + ks)
  {
    var bs, all := [b] + rest, [0] + ks;
    forall i | 1 <= i < |bs| ensures all[i - 1] + 1 + |bs[i - 1].lines| < all[i] {
      assert bs[i] == rest[i - 1] && all[i] == ks[i - 1];
      if i > 1 {
        assert bs[i - 1] == rest[i - 2] && all[i - 1] == ks[i - 2];
      }
    }
  }

  /**
    A line made of space-separated words is a netstat marker exactly when
    its head parses and its third word is `netstat`; a line whose third and
    last word still carries the newline (`netstat` followed by a line feed)
    is not one.
  */
  lemma MarkerWords(parse: Parser, words: seq<string>)
    requires |words| >= 3
    requires forall i :: 0 <= i < |words| ==> ' ' !in words[i]
    ensures var line := Strings.Join(words, ' ');
      ChkNetstat(parse, line) == if words[2] == Marker then parse(Head(line)) else None
  {
    Strings.SplitJoin(words, ' ');
  }

  /** So a marker line read with its line feed still attached opens no block. */
  lemma NewlineHidesMarker(parse: Parser, date: string, time: string)
    requires ' ' !in date && ' ' !in time
    ensures ChkNetstat(parse, Strings.Join([date, time, Marker + "\n"], ' ')).None?
  {
    var words := [date, time, Marker + "\n"];
    assert ' ' !in words[2];
    MarkerWords(parse, words);
    assert words[2] != Marker by {
      assert |words[2]| != |Marker|;
    }
  }

  /**
    Two netstat blocks in a row: the second is captured exactly when it was
    opened more than NSFILTER after the first.
  */
  lemma FilterDecides(parse: Parser, a: string, x: string, c: string, b: string, y: string, z: string, t: int, u: int)
    requires ChkNetstat(parse, a) == Some(t) && t > NetstatFilter
    requires !ChkEvent(parse, x) && ChkEvent(parse, c)
    requires ChkNetstat(parse, b) == Some(u)
    requires !ChkEvent(parse, y) && ChkEvent(parse, z)
    ensures Blocks(parse, Epoch, [a, x, c, b, y, z]) ==
      if u - t > NetstatFilter then [Block(t, [x]), Block(u, [y])] else [Block(t, [x])]
  {
    var lines := [a, x, c, b, y, z];
    assert Untimestamped(parse, lines[1..]) == 1 by {
      assert lines[1..][1..] == [c, b, y, z];
    }
    assert lines[1..1 + 1] == [x];
    var later := lines[3..];
    assert later == [b, y, z];
    assert Blocks(parse, Epoch, lines) == [Block(t, [x])] + Blocks(parse, t, later);
    if u - t > NetstatFilter {
      assert Untimestamped(parse, later[1..]) == 1 by {
        assert later[1..][1..] == [z];
      }
      assert later[1..1 + 1] == [y];
      assert Blocks(parse, t, later) == [Block(u, [y])] + Blocks(parse, u, later[3..]);
    } else {
      assert Blocks(parse, t, later) == Blocks(parse, t, later[1..]);
      assert later[1..] == [y, z] && later[1..][1..] == [z];
      assert Blocks(parse, t, [y, z]) == Blocks(parse, t, [z]);
      assert Blocks(parse, t, [z]) == [] by {
        if Opens(parse, t, z).Some? {
          assert Untimestamped(parse, [z][1..]) == 0;
        }
      }
    }
  }

  /**
    The timestamped line that closes a block is not itself checked as an
    opener: a netstat line right after a block ends it and is lost, however
    long after the block it was written.
  */
  lemma ClosingLineNotReopened(parse: Parser, a: string, x: string, b: string, y: string, t: int, u: int)
    requires ChkNetstat(parse, a) == Some(t) && t > NetstatFilter
    requires !ChkEvent(parse, x)
    requires ChkNetstat(parse, b) == Some(u)
    requires !ChkEvent(parse, y)
    ensures Blocks(parse, Epoch, [a, x, b, y]) == [Block(t, [x])]
  {
    var lines := [a, x, b, y];
    assert Untimestamped(parse, lines[1..]) == 1 by {
      assert lines[1..][1..] == [b, y];
    }
    assert lines[1..1 + 1] == [x];
    assert lines[3..] == [y];
    assert Blocks(parse, t, [y]) == Blocks(parse, t, []);
  }

  /** The scan's variables as an object the loop updates in place. */
  class BlockGrouper {
    const parse: Parser
    var mode: GrouperMode
    var nsdt: int
    var ns: seq<string>
    var blocks: seq<Block>

    function State(): GrouperState
      reads this
    {
      GrouperState(mode, nsdt, ns, blocks)
    }

    constructor (parse: Parser)
      ensures this.parse == parse && State() == GrouperStart
    {
      this.parse := parse;
      mode, nsdt, ns, blocks := Searching, Epoch, [], [];
    }

    /** One line of the loop. */
    method Step(line: string)
      modifies this
      ensures State() == GrouperStep(parse, old(State()), line)
    {
      if mode == Searching {
        var thisTime := ChkNetstat(parse, line);
        if thisTime.Some? && thisTime.value - nsdt > NetstatFilter {
          nsdt := thisTime.value;
          mode := InBlock;
          ns := [];
        }
      } else {
        if !ChkEvent(parse, line) {
          ns := ns + [line];
        } else {
          blocks := blocks + [Block(nsdt, ns)];
          mode := Searching;
        }
      }
    }
  }

  /** The `--netstat` loop over the lines of the file: the blocks it hands on, in order. */
  method ScanNetstat(parse: Parser, lines: seq<string>) returns (blocks: seq<Block>)
    ensures blocks == Blocks(parse, Epoch, lines)
    ensures Spaced(Epoch, blocks)
    ensures AllUntimestamped(parse, blocks)
    ensures exists ks :: FramedBy(parse, lines, blocks, ks) && InOrder(blocks, ks)
  {
    var grouper := new BlockGrouper(parse);
    var i := 0;
    while i < |lines|
      invariant 0 <= i <= |lines| && grouper.parse == parse
      invariant grouper.State() == GrouperRun(parse, GrouperStart, lines[..i])
    {
      assert lines[..i + 1] == lines[..i] + [lines[i]];
      GrouperRunSnoc(parse, GrouperStart, lines[..i], lines[i]);
      grouper.Step(lines[i]);
      i := i + 1;
    }
    assert lines[..i] == lines;
    blocks := grouper.blocks;
    ScannerMatchesBlocks(parse, lines);
    BlocksSpaced(parse, Epoch, lines);
    BlocksUntimestamped(parse, Epoch, lines);
    var ks := BlocksFramed(parse, Epoch, lines);
    assert FramedBy(parse, lines, blocks, ks) && InOrder(blocks, ks);
  }
}
