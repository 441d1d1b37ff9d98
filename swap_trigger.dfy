/**
  The `--mintrigger` scan of the checkswap file: a fold over the records
  that reports restarts, flags the first free-swap value at or below the
  trigger, and re-arms only once the value has climbed both past the lowest
  value seen plus the recovery margin and past the trigger plus the debounce
  margin. The printed lines are modelled as a sequence of events.
*/
module SwapTrigger {
  import opened Wrappers
  import opened SwapRecords
  import Strings
  import Timestamps

  const FreeSwap := "free swap"
  const RestartInitiated := "apache restart initiated"

  /** The `--mintrigger`, `--debounce` and `--recovery` options. */
  datatype Config = Config(minTrigger: int, debounce: int, recovery: int)

  /** `state`: 'search' or 'found'. */
  datatype Mode = Search | Found

  /**
    One printed line. `Triggered.time` is the parsed form of `at`, which is
    what the elapsed field is computed from; it is not printed itself.
  */
  datatype SwapEvent =
    | Restart(at: string, last: int)
    | Triggered(at: string, time: int, value: int, since: Option<Timestamps.Elapsed>)
    | Recovered(at: string, value: int, low: int)

  /** `state`, `lastvalue`, `laston`, `lowvalue`, and the lines printed so far. */
  datatype ScanState = ScanState(mode: Mode, lastValue: int, lastOn: Option<int>, lowValue: int, out: seq<SwapEvent>)

  /** Before the first row. `lowvalue` is not yet bound in the source; 0 stands in, and is never read in Search. */
  const Start := ScanState(Search, 0, None, 0, [])

  /** What the scan needs of a record: fields filled from the front, and a value on every free-swap record. */
  predicate Scannable(rec: SwapRec) {
    FilledFromFront(rec) && (rec.recordtype == Some(FreeSwap) ==> rec.value.Some?)
  }

  /** `if rec.value: lastvalue = rec.value` — None and 0 are both false. */
  function Remembered(last: int, value: Option<int>): (r: int)
    ensures value.Some? && value.value != 0 ==> r == value.value
    ensures value.None? || value.value == 0 ==> r == last
  {
    if value.Some? && value.value != 0 then value.value else last
  }

  function Min(a: int, b: int): (m: int)
    ensures m <= a && m <= b && (m == a || m == b)
  {
    if a <= b then a else b
  }

  /** The body of the scan loop for one record. */
  function Next(c: Config, parse: Timestamps.Parser, st: ScanState, rec: SwapRec): (r: Result<ScanState, Fatal>)
    requires Scannable(rec)
    // a restart line carries the value remembered before this record; a restart record changes nothing else
    ensures rec.recordtype == Some(RestartInitiated) ==>
      r == Success(st.(lastValue := Remembered(st.lastValue, rec.value), out := st.out + [Restart(rec.datetime.value, st.lastValue)]))
    // only free-swap records touch the mode, lowvalue and laston, or print a TRIGGERED or recovered line
    ensures rec.recordtype != Some(FreeSwap) && rec.recordtype != Some(RestartInitiated) ==>
      r == Success(st.(lastValue := Remembered(st.lastValue, rec.value)))
    // in search mode a free-swap value triggers exactly when it is at most mintrigger
    ensures rec.recordtype == Some(FreeSwap) && st.mode == Search && r.Success? ==>
      (r.value.mode == Found <==> rec.value.value <= c.minTrigger)
    ensures rec.recordtype == Some(FreeSwap) && st.mode == Search && r.Success? && r.value.mode == Found ==>
      r.value.lowValue == rec.value.value && r.value.lastOn == parse(rec.datetime.value)
    // a search-mode value above mintrigger changes only lastvalue
    ensures rec.recordtype == Some(FreeSwap) && st.mode == Search && rec.value.value > c.minTrigger ==>
      r == Success(st.(lastValue := Remembered(st.lastValue, rec.value)))
    // a trigger prints one TRIGGERED line with the record's datetime and value and the time since laston
    ensures rec.recordtype == Some(FreeSwap) && st.mode == Search && rec.value.value <= c.minTrigger && parse(rec.datetime.value).Some? ==>
      var t := parse(rec.datetime.value).value;
      var since := if st.lastOn.Some? then Some(Timestamps.SplitDuration(t - st.lastOn.value)) else None;
      r == Success(ScanState(Found, Remembered(st.lastValue, rec.value), Some(t), rec.value.value,
        st.out + [Triggered(rec.datetime.value, t, rec.value.value, since)]))
    // in found mode laston is kept, and a recovery prints one line with the record's value and the new lowvalue
    ensures rec.recordtype == Some(FreeSwap) && st.mode == Found ==>
      var v := rec.value.value;
      var low := Min(st.lowValue, v);
      var up := v > low + c.recovery && v > c.minTrigger + c.debounce;
      r == Success(st.(mode := if up then Search else Found, lastValue := Remembered(st.lastValue, rec.value), lowValue := low,
        out := if up then st.out + [Recovered(rec.datetime.value, v, low)] else st.out))
    // only a trigger can fail, and only because its datetime does not parse
    ensures r.Failure? <==>
      rec.recordtype == Some(FreeSwap) && st.mode == Search && rec.value.value <= c.minTrigger && parse(rec.datetime.value).None?
    ensures r.Failure? ==> r.error == BadTimestamp(rec.datetime.value)
    // in found mode lowvalue follows the minimum, and recovery needs both strict margins
    ensures rec.recordtype == Some(FreeSwap) && st.mode == Found ==>
      && r.Success?
      && r.value.lowValue == Min(st.lowValue, rec.value.value)
      && (r.value.mode == Search <==>
           rec.value.value > r.value.lowValue + c.recovery && rec.value.value > c.minTrigger + c.debounce)
  {
    var out := if rec.recordtype == Some(RestartInitiated) then st.out + [Restart(rec.datetime.value, st.lastValue)] else st.out;
    var st1 := st.(lastValue := Remembered(st.lastValue, rec.value), out := out);
    if rec.recordtype != Some(FreeSwap) then Success(st1)
    else
      var v := rec.value.value;
      var at := rec.datetime.value;
      match st.mode
      case Search =>
        if v <= c.minTrigger then
          match parse(at)
          case None => Failure(BadTimestamp(at))
          case Some(t) =>
            var since := if st.lastOn.Some? then Some(Timestamps.SplitDuration(t - st.lastOn.value)) else None;
            Success(st1.(mode := Found, lastOn := Some(t), lowValue := v, out := out + [Triggered(at, t, v, since)]))
        else Success(st1)
      case Found =>
        var low := Min(st.lowValue, v);
        if v > low + c.recovery && v > c.minTrigger + c.debounce then
          Success(st1.(mode := Search, lowValue := low, out := out + [Recovered(at, v, low)]))
        else Success(st1.(lowValue := low))
  }

  /** The TRIGGERED and recovered lines, in order, without the restarts. */
  function Alarms(out: seq<SwapEvent>): (a: seq<SwapEvent>)
    ensures |a| <= |out|
    ensures forall i :: 0 <= i < |a| ==> !a[i].Restart?
    decreases |out|
  {
    if |out| == 0 then []
    else
      var last := out[|out| - 1];
      Alarms(out[..|out| - 1]) + (if last.Restart? then [] else [last])
  }

  lemma AlarmsSnoc(out: seq<SwapEvent>, e: SwapEvent)
    ensures Alarms(out + [e]) == Alarms(out) + (if e.Restart? then [] else [e])
  {
    assert (out + [e])[..|out|] == out;
  }

  /** TRIGGERED and recovered strictly alternate, starting with TRIGGERED. */
  ghost predicate Alternating(a: seq<SwapEvent>) {
    forall i :: 0 <= i < |a| ==> (a[i].Triggered? <==> i % 2 == 0)
  }

  /** Every TRIGGERED line is at or below the trigger, and its time is its parsed datetime. */
  ghost predicate TriggersAtOrBelow(c: Config, parse: Timestamps.Parser, a: seq<SwapEvent>) {
    forall i :: 0 <= i < |a| && a[i].Triggered? ==> a[i].value <= c.minTrigger && parse(a[i].at) == Some(a[i].time)
  }

  /**
    Every recovered line clears both margins, and its low value is at most
    the value that triggered just before it (so it is at most the trigger).
  */
  ghost predicate RecoveriesClearBand(c: Config, a: seq<SwapEvent>) {
    forall i :: 0 <= i < |a| && a[i].Recovered? ==>
      && a[i].value > a[i].low + c.recovery
      && a[i].value > c.minTrigger + c.debounce
      && 1 <= i && a[i - 1].Triggered? && a[i].low <= a[i - 1].value
  }

  /** The first TRIGGERED line has no elapsed field; each later one, the time since the previous TRIGGERED line. */
  ghost predicate ElapsedSincePreviousTrigger(a: seq<SwapEvent>) {
    forall i :: 0 <= i < |a| && a[i].Triggered? ==> ElapsedAt(a, i)
  }

  /** The elapsed field of the TRIGGERED line at `i`. */
  ghost predicate ElapsedAt(a: seq<SwapEvent>, i: nat)
    requires i < |a| && a[i].Triggered?
  {
    if i < 2 then a[i].since.None?
    else a[i - 2].Triggered? && a[i].since == Some(Timestamps.SplitDuration(a[i].time - a[i - 2].time))
  }

  /** What a run of TRIGGERED and recovered lines promises. */
  ghost predicate Keeps(c: Config, parse: Timestamps.Parser, a: seq<SwapEvent>) {
    Alternating(a) && TriggersAtOrBelow(c, parse, a) && RecoveriesClearBand(c, a) && ElapsedSincePreviousTrigger(a)
  }

  /** What the printed lines promise. */
  ghost predicate Promises(c: Config, parse: Timestamps.Parser, out: seq<SwapEvent>) {
    Keeps(c, parse, Alarms(out))
  }

  /** `laston` is the time of the last TRIGGERED line, which is one of the last two alarm lines. */
  ghost predicate LastOnMatches(a: seq<SwapEvent>, lastOn: Option<int>) {
    forall i :: 0 <= i < |a| && i + 2 >= |a| && a[i].Triggered? ==> lastOn == Some(a[i].time)
  }

  /** The scan invariant: the promises, plus how mode, laston and lowvalue sit relative to the lines printed. */
  ghost predicate Inv(c: Config, parse: Timestamps.Parser, st: ScanState) {
    var a := Alarms(st.out);
    && Keeps(c, parse, a)
    && (st.mode == Found <==> |a| % 2 == 1)
    && (st.lastOn.None? <==> |a| == 0)
    && LastOnMatches(a, st.lastOn)
    && (st.mode == Found ==> st.lowValue <= a[|a| - 1].value)
  }

  lemma StartInv(c: Config, parse: Timestamps.Parser)
    ensures Inv(c, parse, Start)
  {
    assert Alarms([]) == [];
  }

  lemma AlternatingSnoc(a: seq<SwapEvent>, e: SwapEvent)
    requires Alternating(a) && (e.Triggered? <==> |a| % 2 == 0)
    ensures Alternating(a + [e])
  {
    var a' := a + [e];
    forall i | 0 <= i < |a'| ensures (a'[i].Triggered? <==> i % 2 == 0) {
      if i < |a| { assert a'[i] == a[i]; }
    }
  }

  lemma TriggersSnoc(c: Config, parse: Timestamps.Parser, a: seq<SwapEvent>, e: SwapEvent)
    requires TriggersAtOrBelow(c, parse, a)
    requires e.Triggered? ==> e.value <= c.minTrigger && parse(e.at) == Some(e.time)
    ensures TriggersAtOrBelow(c, parse, a + [e])
  {
    var a' := a + [e];
    forall i | 0 <= i < |a'| && a'[i].Triggered? ensures a'[i].value <= c.minTrigger && parse(a'[i].at) == Some(a'[i].time) {
      if i < |a| { assert a'[i] == a[i]; }
    }
  }

  lemma RecoveriesSnoc(c: Config, a: seq<SwapEvent>, e: SwapEvent)
    requires RecoveriesClearBand(c, a)
    requires e.Recovered? ==>
      && e.value > e.low + c.recovery && e.value > c.minTrigger + c.debounce
      && |a| >= 1 && a[|a| - 1].Triggered? && e.low <= a[|a| - 1].value
    ensures RecoveriesClearBand(c, a + [e])
  {
    var a' := a + [e];
    forall i | 0 <= i < |a'| && a'[i].Recovered?
      ensures a'[i].value > a'[i].low + c.recovery && a'[i].value > c.minTrigger + c.debounce
      ensures 1 <= i && a'[i - 1].Triggered? && a'[i].low <= a'[i - 1].value
    {
      if i < |a| {
        assert a'[i] == a[i] && a'[i - 1] == a[i - 1];
      } else {
        assert a'[i - 1] == a[|a| - 1];
      }
    }
  }

  lemma ElapsedSnoc(a: seq<SwapEvent>, e: SwapEvent)
    requires ElapsedSincePreviousTrigger(a)
    requires e.Triggered? ==>
      if |a| < 2 then e.since.None?
      else a[|a| - 2].Triggered? && e.since == Some(Timestamps.SplitDuration(e.time - a[|a| - 2].time))
    ensures ElapsedSincePreviousTrigger(a + [e])
  {
    var a' := a + [e];
    forall i | 0 <= i < |a'| && a'[i].Triggered? ensures ElapsedAt(a', i) {
      if i < |a| {
        assert a'[i] == a[i] && a[i].Triggered?;
        if i >= 2 { assert a'[i - 2] == a[i - 2]; } else { assert a[i].since.None?; }
      } else {
        assert a'[i] == e && i == |a|;
        if i >= 2 {
          assert a'[i - 2] == a[|a| - 2];
          assert a'[i].since == Some(Timestamps.SplitDuration(a'[i].time - a'[i - 2].time));
        } else {
          assert a'[i].since.None?;
        }
      }
    }
  }

  /** A TRIGGERED line after an even number of alarm lines keeps the promises and becomes the last trigger. */
  lemma AlarmsTrigger(c: Config, parse: Timestamps.Parser, a: seq<SwapEvent>, lastOn: Option<int>, e: SwapEvent)
    requires Keeps(c, parse, a) && |a| % 2 == 0
    requires (lastOn.None? <==> |a| == 0) && LastOnMatches(a, lastOn)
    requires e.Triggered? && e.value <= c.minTrigger && parse(e.at) == Some(e.time)
    requires e.since == if lastOn.Some? then Some(Timestamps.SplitDuration(e.time - lastOn.value)) else None
    ensures Keeps(c, parse, a + [e]) && LastOnMatches(a + [e], Some(e.time))
  {
    if |a| >= 2 {
      PreviousTrigger(a, lastOn);
    }
    AlternatingSnoc(a, e);
    TriggersSnoc(c, parse, a, e);
    RecoveriesSnoc(c, a, e);
    ElapsedSnoc(a, e);
    LastOnAfterTrigger(a, e);
  }

  /** After an even number (at least two) of alarm lines, the last TRIGGERED line is the one before last. */
  lemma PreviousTrigger(a: seq<SwapEvent>, lastOn: Option<int>)
    requires Alternating(a) && |a| % 2 == 0 && |a| >= 2 && LastOnMatches(a, lastOn)
    ensures a[|a| - 2].Triggered? && lastOn == Some(a[|a| - 2].time)
  {
    assert (|a| - 2) % 2 == 0;
  }

  lemma LastOnAfterTrigger(a: seq<SwapEvent>, e: SwapEvent)
    requires Alternating(a) && |a| % 2 == 0 && e.Triggered?
    ensures LastOnMatches(a + [e], Some(e.time))
  {
    var a' := a + [e];
    if |a| >= 1 {
      assert a'[|a| - 1] == a[|a| - 1] && !a[|a| - 1].Triggered?;
    }
    forall i | 0 <= i < |a'| && i + 2 >= |a'| && a'[i].Triggered? ensures Some(e.time) == Some(a'[i].time) {
      assert i == |a|;
    }
  }

  /** A recovered line after an odd number of alarm lines keeps the promises and leaves the last trigger alone. */
  lemma AlarmsRecover(c: Config, parse: Timestamps.Parser, a: seq<SwapEvent>, lastOn: Option<int>, e: SwapEvent)
    requires Keeps(c, parse, a) && |a| % 2 == 1 && LastOnMatches(a, lastOn)
    requires e.Recovered? && e.value > e.low + c.recovery && e.value > c.minTrigger + c.debounce
    requires e.low <= a[|a| - 1].value
    ensures Keeps(c, parse, a + [e]) && LastOnMatches(a + [e], lastOn)
  {
    assert a[|a| - 1].Triggered?;
    AlternatingSnoc(a, e);
    TriggersSnoc(c, parse, a, e);
    RecoveriesSnoc(c, a, e);
    ElapsedSnoc(a, e);
    var a' := a + [e];
    forall i | 0 <= i < |a'| && i + 2 >= |a'| && a'[i].Triggered? ensures lastOn == Some(a'[i].time) {
      assert i == |a| - 1 && a'[i] == a[i];
    }
  }

  /** A step that prints no TRIGGERED or recovered line and keeps the mode keeps the invariant. */
  lemma QuietKeepsInv(c: Config, parse: Timestamps.Parser, st: ScanState, st': ScanState)
    requires Inv(c, parse, st)
    requires Alarms(st'.out) == Alarms(st.out) && st'.mode == st.mode && st'.lastOn == st.lastOn
    requires st'.mode == Found ==> st'.lowValue <= st.lowValue
    ensures Inv(c, parse, st')
  {
  }

  lemma TriggerKeepsInv(c: Config, parse: Timestamps.Parser, st: ScanState, st': ScanState, e: SwapEvent)
    requires Inv(c, parse, st) && st.mode == Search
    requires e.Triggered? && e.value <= c.minTrigger && parse(e.at) == Some(e.time)
    requires e.since == if st.lastOn.Some? then Some(Timestamps.SplitDuration(e.time - st.lastOn.value)) else None
    requires st'.mode == Found && st'.lastOn == Some(e.time) && st'.lowValue == e.value && st'.out == st.out + [e]
    ensures Inv(c, parse, st')
  {
    AlarmsSnoc(st.out, e);
    AlarmsTrigger(c, parse, Alarms(st.out), st.lastOn, e);
  }

  lemma RecoverKeepsInv(c: Config, parse: Timestamps.Parser, st: ScanState, st': ScanState, e: SwapEvent)
    requires Inv(c, parse, st) && st.mode == Found
    requires e.Recovered? && e.low <= st.lowValue && e.value > e.low + c.recovery && e.value > c.minTrigger + c.debounce
    requires st'.mode == Search && st'.lastOn == st.lastOn && st'.out == st.out + [e]
    ensures Inv(c, parse, st')
  {
    AlarmsSnoc(st.out, e);
    AlarmsRecover(c, parse, Alarms(st.out), st.lastOn, e);
  }

  lemma NextKeepsInv(c: Config, parse: Timestamps.Parser, st: ScanState, rec: SwapRec)
    requires Scannable(rec) && Inv(c, parse, st)
    ensures Next(c, parse, st, rec).Success? ==> Inv(c, parse, Next(c, parse, st, rec).value)
  {
    var r := Next(c, parse, st, rec);
    if r.Success? {
      var st' := r.value;
      if rec.recordtype == Some(RestartInitiated) {
        AlarmsSnoc(st.out, Restart(rec.datetime.value, st.lastValue));
        QuietKeepsInv(c, parse, st, st');
      } else if rec.recordtype != Some(FreeSwap) {
        QuietKeepsInv(c, parse, st, st');
      } else if st.mode == Search {
        if st'.mode == Found {
          TriggerKeepsInv(c, parse, st, st', st'.out[|st'.out| - 1]);
        } else {
          QuietKeepsInv(c, parse, st, st');
        }
      } else if st'.mode == Search {
        RecoverKeepsInv(c, parse, st, st', st'.out[|st'.out| - 1]);
      } else {
        QuietKeepsInv(c, parse, st, st');
      }
    }
  }

  /** What the scan of one row comes to: the new state, or the old one and the error that aborts the scan. */
  datatype Outcome = Outcome(state: ScanState, abort: Option<Fatal>)

  /** A free-swap row carries a value field. */
  predicate RowScannable(row: seq<string>) {
    |row| >= 2 && row[1] == FreeSwap ==> |row| >= 3
  }

  predicate RowsScannable(rows: seq<seq<string>>) {
    forall i :: 0 <= i < |rows| ==> RowScannable(rows[i])
  }

  lemma RecordScannable(row: seq<string>)
    requires RowScannable(row) && RecordOf(row).Success?
    ensures Scannable(RecordOf(row).value)
  {
  }

  /** One pass of the loop body: parse the row, then apply the record. */
  function Consume(c: Config, parse: Timestamps.Parser, st: ScanState, row: seq<string>): Outcome
    requires RowScannable(row)
  {
    match RecordOf(row)
    case Failure(e) => Outcome(st, Some(e))
    case Success(rec) =>
      RecordScannable(row);
      match Next(c, parse, st, rec)
      case Failure(e) => Outcome(st, Some(e))
      case Success(st') => Outcome(st', None)
  }

  /**
    A row that raises leaves the state, and so what was printed, as it was.
    A row whose value is not an integer raises that error; any other row
    that is not a free-swap record does not raise.
  */
  lemma ConsumeAbort(c: Config, parse: Timestamps.Parser, st: ScanState, row: seq<string>)
    requires RowScannable(row)
    ensures var o := Consume(c, parse, st, row);
      && (o.abort.Some? ==> o.state == st)
      && (RecordOf(row).Failure? ==> o.abort == Some(RecordOf(row).error))
      && (RecordOf(row).Success? && !IsFreeRow(row) ==> o.abort.None?)
  {
  }

  /** The scan from state st over the rows, stopping at the first error. */
  function RunRows(c: Config, parse: Timestamps.Parser, st: ScanState, rows: seq<seq<string>>): Outcome
    requires RowsScannable(rows)
    decreases |rows|
  {
    if |rows| == 0 then Outcome(st, None)
    else
      var o := Consume(c, parse, st, rows[0]);
      if o.abort.Some? then o else RunRows(c, parse, o.state, rows[1..])
  }

  lemma {:induction false} RunRowsSnoc(c: Config, parse: Timestamps.Parser, st: ScanState, rows: seq<seq<string>>, row: seq<string>)
    requires RowsScannable(rows) && RowScannable(row)
    ensures RowsScannable(rows + [row])
    ensures var o := RunRows(c, parse, st, rows);
      RunRows(c, parse, st, rows + [row]) == if o.abort.Some? then o else Consume(c, parse, o.state, row)
    decreases |rows|
  {
    assert forall i :: 0 <= i < |rows + [row]| ==> RowScannable((rows + [row])[i]) by {
      forall i | 0 <= i < |rows + [row]| ensures RowScannable((rows + [row])[i]) {
        if i < |rows| { assert (rows + [row])[i] == rows[i]; }
      }
    }
    if |rows| > 0 {
      var o := Consume(c, parse, st, rows[0]);
      assert (rows + [row])[1..] == rows[1..] + [row];
      if o.abort.None? {
        RunRowsSnoc(c, parse, o.state, rows[1..], row);
      }
    }
  }

  /**
    The scan over pre + rest is the scan over rest started from the state
    the scan over pre ends in, so promises made from any state carry over
    to the scan from Start.
  */
  lemma {:induction false} RunRowsAppend(c: Config, parse: Timestamps.Parser, st: ScanState, pre: seq<seq<string>>, rest: seq<seq<string>>)
    requires RowsScannable(pre) && RowsScannable(rest)
    requires RunRows(c, parse, st, pre).abort.None?
    ensures RowsScannable(pre + rest)
    ensures RunRows(c, parse, st, pre + rest) == RunRows(c, parse, RunRows(c, parse, st, pre).state, rest)
    decreases |pre|
  {
    assert forall i :: 0 <= i < |pre + rest| ==> RowScannable((pre + rest)[i]) by {
      forall i | 0 <= i < |pre + rest| ensures RowScannable((pre + rest)[i]) {
        if i < |pre| { assert (pre + rest)[i] == pre[i]; } else { assert (pre + rest)[i] == rest[i - |pre|]; }
      }
    }
    if |pre| > 0 {
      var o := Consume(c, parse, st, pre[0]);
      assert (pre + rest)[1..] == pre[1..] + rest;
      RunRowsAppend(c, parse, o.state, pre[1..], rest);
    } else {
      assert pre + rest == rest;
    }
  }

  lemma {:induction false} RunRowsKeepsInv(c: Config, parse: Timestamps.Parser, st: ScanState, rows: seq<seq<string>>)
    requires RowsScannable(rows) && Inv(c, parse, st)
    ensures Inv(c, parse, RunRows(c, parse, st, rows).state)
    decreases |rows|
  {
    if |rows| > 0 {
      var o := Consume(c, parse, st, rows[0]);
      if RecordOf(rows[0]).Success? {
        RecordScannable(rows[0]);
        NextKeepsInv(c, parse, st, RecordOf(rows[0]).value);
      }
      if o.abort.None? {
        RunRowsKeepsInv(c, parse, o.state, rows[1..]);
      }
    }
  }

  /**
    Whatever the rows, the lines printed before the scan ends or aborts keep
    the promises: TRIGGERED and recovered alternate starting with TRIGGERED,
    triggers are at or below mintrigger, recoveries clear both margins, and
    each repeated trigger reports the time since the previous trigger.
  */
  lemma ScanKeepsPromises(c: Config, parse: Timestamps.Parser, rows: seq<seq<string>>)
    requires RowsScannable(rows)
    ensures Promises(c, parse, RunRows(c, parse, Start, rows).state.out)
  {
    StartInv(c, parse);
    RunRowsKeepsInv(c, parse, Start, rows);
  }

  /** A recovered line never reports a value at or below mintrigger + debounce, nor a low value above mintrigger. */
  lemma RecoveredBounds(c: Config, parse: Timestamps.Parser, rows: seq<seq<string>>, e: SwapEvent)
    requires RowsScannable(rows)
    requires e in RunRows(c, parse, Start, rows).state.out && e.Recovered?
    ensures e.value > c.minTrigger + c.debounce && e.low <= c.minTrigger
  {
    var out := RunRows(c, parse, Start, rows).state.out;
    ScanKeepsPromises(c, parse, rows);
    var k :| 0 <= k < |out| && out[k] == e;
    AlarmsContain(out, k);
    var a := Alarms(out);
    var i :| 0 <= i < |a| && a[i] == e;
    assert a[i - 1].Triggered?;
  }

  lemma {:induction false} AlarmsContain(out: seq<SwapEvent>, k: nat)
    requires k < |out| && !out[k].Restart?
    ensures out[k] in Alarms(out)
    decreases |out|
  {
    if k < |out| - 1 {
      AlarmsContain(out[..|out| - 1], k);
    }
  }

  /** The value field of a row as int() reads it, when the row has one. */
  function RowValue(row: seq<string>): Option<int> {
    if |row| >= 3 then Strings.ParseInt(row[2]) else None
  }

  /** The last nonzero value among the rows, or prev when no row has one. */
  function LastNonZero(prev: int, rows: seq<seq<string>>): int
    decreases |rows|
  {
    if |rows| == 0 then prev
    else
      var v := RowValue(rows[|rows| - 1]);
      if v.Some? && v.value != 0 then v.value else LastNonZero(prev, rows[..|rows| - 1])
  }

  /** After a scan that did not abort, lastvalue is the last nonzero value read, or 0. */
  lemma {:induction false} RunRowsLastValue(c: Config, parse: Timestamps.Parser, rows: seq<seq<string>>)
    requires RowsScannable(rows) && RunRows(c, parse, Start, rows).abort.None?
    ensures RunRows(c, parse, Start, rows).state.lastValue == LastNonZero(0, rows)
    decreases |rows|
  {
    if |rows| > 0 {
      var front, row := rows[..|rows| - 1], rows[|rows| - 1];
      assert front + [row] == rows;
      assert RowsScannable(front) && RowScannable(row) by {
        assert forall i :: 0 <= i < |front| ==> front[i] == rows[i];
      }
      RunRowsSnoc(c, parse, Start, front, row);
      var o := RunRows(c, parse, Start, front);
      assert o.abort.None?;
      RunRowsLastValue(c, parse, front);
      assert RecordOf(row).Success?;
      assert RecordOf(row).value.value == RowValue(row);
    }
  }

  /**
    A restart row prints the value remembered from the rows before it — the
    last nonzero one, or 0 — never its own.
  */
  lemma RestartReportsLastValue(c: Config, parse: Timestamps.Parser, rows: seq<seq<string>>, row: seq<string>)
    requires RowsScannable(rows) && RowScannable(row)
    requires |row| >= 2 && row[1] == RestartInitiated
    requires RunRows(c, parse, Start, rows).abort.None?
    ensures RowsScannable(rows + [row])
    ensures var o := RunRows(c, parse, Start, rows + [row]);
      o.abort.None? ==> o.state.out == RunRows(c, parse, Start, rows).state.out + [Restart(row[0], LastNonZero(0, rows))]
  {
    RunRowsSnoc(c, parse, Start, rows, row);
    RunRowsLastValue(c, parse, rows);
  }

  /** A row the scan treats as a free-swap record. */
  predicate IsFreeRow(row: seq<string>) {
    |row| >= 2 && row[1] == FreeSwap
  }

  /** low lowered in turn by every free-swap value among the rows: `lowvalue = min([lowvalue, rec.value])` run over them. */
  function FreeMin(low: int, rows: seq<seq<string>>): (m: int)
    ensures m <= low
    decreases |rows|
  {
    if |rows| == 0 then low
    else
      var m := FreeMin(low, rows[..|rows| - 1]);
      var row := rows[|rows| - 1];
      if IsFreeRow(row) && RowValue(row).Some? then Min(m, RowValue(row).value) else m
  }

  lemma {:induction false} AlarmsMonotone(a: seq<SwapEvent>, b: seq<SwapEvent>)
    requires a <= b
    ensures |Alarms(a)| <= |Alarms(b)|
    decreases |b|
  {
    if |b| > |a| {
      var front := b[..|b| - 1];
      assert front + [b[|b| - 1]] == b;
      assert a <= front;
      AlarmsMonotone(a, front);
      AlarmsSnoc(front, b[|b| - 1]);
    } else {
      assert a == b;
    }
  }

  /**
    One row that does not abort only appends to what is printed, and adds an
    alarm line exactly when it flips the mode. In found mode a row that adds
    none stays in found mode and lowers lowvalue by its free-swap value.
  */
  lemma ConsumeAlarms(c: Config, parse: Timestamps.Parser, st: ScanState, row: seq<string>)
    requires RowScannable(row) && Consume(c, parse, st, row).abort.None?
    ensures var st' := Consume(c, parse, st, row).state;
      && st.out <= st'.out
      && |Alarms(st'.out)| == |Alarms(st.out)| + (if st'.mode != st.mode then 1 else 0)
    ensures var st' := Consume(c, parse, st, row).state;
      st.mode == Found && st'.mode == Found ==>
        st'.lowValue == if IsFreeRow(row) && RowValue(row).Some? then Min(st.lowValue, RowValue(row).value) else st.lowValue
  {
    var rec := RecordOf(row).value;
    RecordScannable(row);
    assert Next(c, parse, st, rec).value == Consume(c, parse, st, row).state;
    assert IsFreeRow(row) ==> rec.recordtype == Some(FreeSwap) && RowValue(row) == rec.value;
    NextAlarms(c, parse, st, rec);
  }

  /** The step on one record, as ConsumeAlarms states it for a row. */
  lemma NextAlarms(c: Config, parse: Timestamps.Parser, st: ScanState, rec: SwapRec)
    requires Scannable(rec) && Next(c, parse, st, rec).Success?
    ensures var st' := Next(c, parse, st, rec).value;
      && st.out <= st'.out
      && |Alarms(st'.out)| == |Alarms(st.out)| + (if st'.mode != st.mode then 1 else 0)
    ensures var st' := Next(c, parse, st, rec).value;
      st.mode == Found && st'.mode == Found ==>
        st'.lowValue == if rec.recordtype == Some(FreeSwap) then Min(st.lowValue, rec.value.value) else st.lowValue
  {
    var st' := Next(c, parse, st, rec).value;
    if st'.out != st.out {
      var e := st'.out[|st'.out| - 1];
      assert st'.out == st.out + [e];
      AlarmsSnoc(st.out, e);
    }
  }

  lemma {:induction false} RunRowsGrows(c: Config, parse: Timestamps.Parser, st: ScanState, rows: seq<seq<string>>)
    requires RowsScannable(rows) && RunRows(c, parse, st, rows).abort.None?
    ensures st.out <= RunRows(c, parse, st, rows).state.out
    decreases |rows|
  {
    if |rows| > 0 {
      ConsumeAlarms(c, parse, st, rows[0]);
      RunRowsGrows(c, parse, Consume(c, parse, st, rows[0]).state, rows[1..]);
    }
  }

  /**
    From a state in found mode, as long as no alarm line is printed, the scan
    stays in found mode and lowvalue is the running minimum of the free-swap
    values read since. Right after a trigger, lowvalue is the triggering value.
  */
  lemma {:induction false} LowSinceTrigger(c: Config, parse: Timestamps.Parser, st: ScanState, rows: seq<seq<string>>)
    requires RowsScannable(rows) && st.mode == Found
    requires RunRows(c, parse, st, rows).abort.None?
    requires |Alarms(RunRows(c, parse, st, rows).state.out)| == |Alarms(st.out)|
    ensures RunRows(c, parse, st, rows).state.mode == Found
    ensures RunRows(c, parse, st, rows).state.lowValue == FreeMin(st.lowValue, rows)
    decreases |rows|
  {
    if |rows| > 0 {
      var front, row := rows[..|rows| - 1], rows[|rows| - 1];
      assert front + [row] == rows;
      assert RowsScannable(front) && RowScannable(row) by {
        assert forall i :: 0 <= i < |front| ==> front[i] == rows[i];
      }
      RunRowsSnoc(c, parse, st, front, row);
      var o := RunRows(c, parse, st, front);
      assert o.abort.None?;
      RunRowsGrows(c, parse, st, front);
      AlarmsMonotone(st.out, o.state.out);
      ConsumeAlarms(c, parse, o.state, row);
      LowSinceTrigger(c, parse, st, front);
    }
  }

  /**
    A recovered line reports as its low value the minimum of lowvalue at the
    last trigger and every free-swap value read since, the recovering one
    included, and it reports the recovering row's datetime and value.
  */
  lemma RecoveredLow(c: Config, parse: Timestamps.Parser, st: ScanState, rows: seq<seq<string>>, row: seq<string>)
    requires RowsScannable(rows) && RowScannable(row) && st.mode == Found
    requires RunRows(c, parse, st, rows).abort.None?
    requires |Alarms(RunRows(c, parse, st, rows).state.out)| == |Alarms(st.out)|
    ensures RowsScannable(rows + [row])
    ensures var o := RunRows(c, parse, st, rows); var o' := RunRows(c, parse, st, rows + [row]);
      o'.abort.None? && o'.state.mode == Search ==>
        && IsFreeRow(row) && RowValue(row).Some?
        && o'.state.out == o.state.out + [Recovered(row[0], RowValue(row).value, FreeMin(st.lowValue, rows + [row]))]
  {
    RunRowsSnoc(c, parse, st, rows, row);
    LowSinceTrigger(c, parse, st, rows);
    var o := RunRows(c, parse, st, rows);
    assert (rows + [row])[..|rows|] == rows;
    if RecordOf(row).Success? {
      RecordScannable(row);
      assert IsFreeRow(row) <==> RecordOf(row).value.recordtype == Some(FreeSwap);
    }
  }

  /** The scan's variables as an object the loop updates in place. */
  class SwapScanner {
    const config: Config
    const parse: Timestamps.Parser
    var mode: Mode
    var lastValue: int
    var lastOn: Option<int>
    var lowValue: int
    var out: seq<SwapEvent>

    function State(): ScanState
      reads this
    {
      ScanState(mode, lastValue, lastOn, lowValue, out)
    }

    ghost predicate Valid()
      reads this
    {
      Inv(config, parse, State())
    }

    constructor (config: Config, parse: Timestamps.Parser)
      ensures this.config == config && this.parse == parse
      ensures State() == Start && Valid()
    {
      this.config := config;
      this.parse := parse;
      mode, lastValue, lastOn, lowValue, out := Search, 0, None, 0, [];
      new;
      StartInv(config, parse);
    }

    /** One record of the loop; on an error the record has changed nothing but lastvalue. */
    method Step(rec: SwapRec) returns (abort: Option<Fatal>)
      requires Valid() && Scannable(rec)
      modifies this
      ensures Valid()
      ensures match Next(config, parse, old(State()), rec)
        case Success(st) => abort.None? && State() == st
        case Failure(e) => abort == Some(e) && State() == old(State()).(lastValue := Remembered(old(lastValue), rec.value))
    {
      ghost var st0 := State();
      abort := Update(rec);
      if abort.None? {
        NextKeepsInv(config, parse, st0, rec);
      } else {
        QuietKeepsInv(config, parse, st0, State());
      }
    }

    /** The body of the loop for one record, as the fields change in place. */
    method Update(rec: SwapRec) returns (abort: Option<Fatal>)
      requires Scannable(rec)
      modifies this
      ensures match Next(config, parse, old(State()), rec)
        case Success(st) => abort.None? && State() == st
        case Failure(e) => abort == Some(e) && State() == old(State()).(lastValue := Remembered(old(lastValue), rec.value))
    {
      ghost var st0 := State();
      ghost var expected := Next(config, parse, st0, rec);
      abort := None;
      if rec.recordtype == Some(RestartInitiated) {
        out := out + [Restart(rec.datetime.value, lastValue)];
      }
      if rec.value.Some? && rec.value.value != 0 {
        lastValue := rec.value.value;
      }
      assert lastValue == Remembered(st0.lastValue, rec.value);
      if rec.recordtype == Some(FreeSwap) {
        var v := rec.value.value;
        if mode == Search {
          if v <= config.minTrigger {
            var at := rec.datetime.value;
            var thisTime := parse(at);
            if thisTime.None? {
              abort := Some(BadTimestamp(at));
            } else {
              var since := None;
              if lastOn.Some? {
                since := Some(Timestamps.SplitDuration(thisTime.value - lastOn.value));
              }
              out := out + [Triggered(at, thisTime.value, v, since)];
              lastOn := thisTime;
              mode := Found;
              lowValue := v;
            }
          }
        } else {
          lowValue := Min(lowValue, v);
          if v > lowValue + config.recovery && v > config.minTrigger + config.debounce {
            out := out + [Recovered(rec.datetime.value, v, lowValue)];
            mode := Search;
          }
        }
      }
      if abort.None? {
        assert expected == Success(State());
      } else {
        assert expected == Failure(abort.value);
      }
    }
  }

  /**
    The `--mintrigger` loop over the rows of the file: the lines printed,
    and the error that stopped the scan early, if any.
  */
  method ScanSwap(c: Config, parse: Timestamps.Parser, rows: seq<seq<string>>) returns (events: seq<SwapEvent>, abort: Option<Fatal>)
    requires RowsScannable(rows)
    ensures var o := RunRows(c, parse, Start, rows); events == o.state.out && abort == o.abort
    ensures Promises(c, parse, events)
  {
    var scanner := new SwapScanner(c, parse);
    var i := 0;
    while i < |rows|
      invariant 0 <= i <= |rows| && RowsScannable(rows[..i])
      invariant scanner.config == c && scanner.parse == parse && scanner.Valid()
      invariant RunRows(c, parse, Start, rows[..i]) == Outcome(scanner.State(), None)
    {
      PrefixStep(c, parse, rows, i);
      abort := ScanRow(scanner, rows[i]);
      if abort.Some? {
        events := scanner.out;
        AbortedPrefix(c, parse, rows, i + 1);
        return;
      }
      i := i + 1;
    }
    assert rows[..i] == rows;
    events, abort := scanner.out, None;
    ScanKeepsPromises(c, parse, rows);
  }

  /** One pass of the loop of ScanSwap: the row becomes a record, and the record a step of the scanner. */
  method ScanRow(scanner: SwapScanner, row: seq<string>) returns (abort: Option<Fatal>)
    requires scanner.Valid() && RowScannable(row)
    modifies scanner
    ensures scanner.Valid()
    ensures var o := Consume(scanner.config, scanner.parse, old(scanner.State()), row);
      && abort == o.abort
      && (abort.None? ==> scanner.State() == o.state)
      && (abort.Some? ==> scanner.out == o.state.out)
  {
    var rec := ParseRecord(row);
    if rec.Failure? {
      return Some(rec.error);
    }
    RecordScannable(row);
    ghost var st0 := scanner.State();
    abort := scanner.Step(rec.value);
    StepIsConsume(scanner.config, scanner.parse, st0, row, abort, scanner.State());
  }

  /** The scan of one more row, in the form the loop of ScanSwap uses. */
  lemma PrefixStep(c: Config, parse: Timestamps.Parser, rows: seq<seq<string>>, i: nat)
    requires RowsScannable(rows) && i < |rows| && RowsScannable(rows[..i])
    ensures RowsScannable(rows[..i + 1])
    ensures var o := RunRows(c, parse, Start, rows[..i]);
      RunRows(c, parse, Start, rows[..i + 1]) == if o.abort.Some? then o else Consume(c, parse, o.state, rows[i])
  {
    assert rows[..i + 1] == rows[..i] + [rows[i]];
    RunRowsSnoc(c, parse, Start, rows[..i], rows[i]);
  }

  /** What SwapScanner.Step reports for a row's record is the outcome of Consume on that row. */
  lemma StepIsConsume(c: Config, parse: Timestamps.Parser, st: ScanState, row: seq<string>, abort: Option<Fatal>, st': ScanState)
    requires RowScannable(row) && RecordOf(row).Success? && Scannable(RecordOf(row).value)
    requires match Next(c, parse, st, RecordOf(row).value)
      case Success(s) => abort.None? && st' == s
      case Failure(e) => abort == Some(e) && st'.out == st.out
    ensures Consume(c, parse, st, row).abort == abort
    ensures abort.None? ==> Consume(c, parse, st, row).state == st'
    ensures abort.Some? ==> Consume(c, parse, st, row).state.out == st'.out
  {
  }

  /** A scan that aborts within the first k rows is the whole scan, and it keeps the promises. */
  lemma AbortedPrefix(c: Config, parse: Timestamps.Parser, rows: seq<seq<string>>, k: nat)
    requires RowsScannable(rows) && k <= |rows| && RowsScannable(rows[..k])
    requires RunRows(c, parse, Start, rows[..k]).abort.Some?
    ensures RunRows(c, parse, Start, rows) == RunRows(c, parse, Start, rows[..k])
    ensures Promises(c, parse, RunRows(c, parse, Start, rows).state.out)
  {
    assert rows[..k] + rows[k..] == rows;
    RunRowsAbortStays(c, parse, Start, rows[..k], rows[k..]);
    ScanKeepsPromises(c, parse, rows);
  }

  /** Once the scan has aborted, later rows are never read. */
  lemma {:induction false} RunRowsAbortStays(c: Config, parse: Timestamps.Parser, st: ScanState, rows: seq<seq<string>>, more: seq<seq<string>>)
    requires RowsScannable(rows) && RowsScannable(more)
    requires RunRows(c, parse, st, rows).abort.Some?
    ensures RowsScannable(rows + more)
    ensures RunRows(c, parse, st, rows + more) == RunRows(c, parse, st, rows)
    decreases |rows|
  {
    assert forall i :: 0 <= i < |rows + more| ==> RowScannable((rows + more)[i]) by {
      forall i | 0 <= i < |rows + more| ensures RowScannable((rows + more)[i]) {
        if i < |rows| { assert (rows + more)[i] == rows[i]; } else { assert (rows + more)[i] == more[i - |rows|]; }
      }
    }
    var o := Consume(c, parse, st, rows[0]);
    if o.abort.None? {
      assert (rows + more)[1..] == rows[1..] + more;
      RunRowsAbortStays(c, parse, o.state, rows[1..], more);
    }
  }
}
