/**
  The counting and sorting half of `printnetstat`: the connection rows of
  one netstat block are filtered to CLOSE_WAIT and TIME_WAIT, keyed by the
  host part of the foreign address, counted per host, and the hosts are
  put in ascending order of their dotted integer tuples.
*/
module Connections {
  import opened Wrappers
  import Strings

  /** One row of the netstat table, as the table reader hands it on. */
  datatype ConnRow = ConnRow(state: string, foreignaddr: string)

  const CloseWait := "CLOSE_WAIT"
  const TimeWait := "TIME_WAIT"

  predicate Watched(row: ConnRow) {
    row.state == CloseWait || row.state == TimeWait
  }

  /** `foreignaddr.split(':')[0]`. */
  function HostOf(row: ConnRow): string {
    Strings.Before(row.foreignaddr, ':')
  }

  /** `int(p)` of every piece, or None as soon as one of them raises ValueError. */
  function ParseAll(pieces: seq<string>): (r: Option<seq<int>>)
    ensures r.Some? ==> |r.value| == |pieces|
    ensures r.Some? <==> forall i :: 0 <= i < |pieces| ==> Strings.ParseInt(pieces[i]).Some?
    ensures r.Some? ==> forall i :: 0 <= i < |pieces| ==> Strings.ParseInt(pieces[i]) == Some(r.value[i])
    decreases |pieces|
  {
    if |pieces| == 0 then Some([])
    else match (Strings.ParseInt(pieces[0]), ParseAll(pieces[1..]))
      case (Some(v), Some(vs)) => Some([v] + vs)
      case _ => None
  }

  /** `tuple(int(p) for p in host.split('.'))`: no range check on the pieces and no check on their number. */
  function Octets(host: string): Option<seq<int>> {
    ParseAll(Strings.Split(host, '.'))
  }

  /** The host survives the ValueError filter. */
  predicate Numeric(host: string) {
    Octets(host).Some?
  }

  /** The sort key of a host: its tuple of integers (only hosts that passed the filter are ever sorted). */
  function Key(host: string): seq<int> {
    match Octets(host)
    case Some(t) => t
    case None => []
  }

  /** Python 2 `cmp` on tuples of integers, as "at most": lexicographic, a proper prefix comes first. */
  predicate TupleLe(a: seq<int>, b: seq<int>)
    decreases |a|
  {
    |a| == 0 || (|b| > 0 && (a[0] < b[0] || (a[0] == b[0] && TupleLe(a[1..], b[1..]))))
  }

  lemma {:induction false} TupleLeTotal(a: seq<int>, b: seq<int>)
    ensures TupleLe(a, b) || TupleLe(b, a)
    decreases |a|
  {
    if |a| > 0 && |b| > 0 && a[0] == b[0] {
      TupleLeTotal(a[1..], b[1..]);
    }
  }

  lemma {:induction false} TupleLeTransitive(a: seq<int>, b: seq<int>, c: seq<int>)
    requires TupleLe(a, b) && TupleLe(b, c)
    ensures TupleLe(a, c)
    decreases |a|
  {
    if |a| > 0 && a[0] == b[0] && b[0] == c[0] {
      TupleLeTransitive(a[1..], b[1..], c[1..]);
    }
  }

  lemma {:induction false} TupleLeAntisymmetric(a: seq<int>, b: seq<int>)
    requires TupleLe(a, b) && TupleLe(b, a)
    ensures a == b
    decreases |a|
  {
    if |a| > 0 {
      TupleLeAntisymmetric(a[1..], b[1..]);
      assert a == [a[0]] + a[1..] && b == [b[0]] + b[1..];
    }
  }

  /** A proper prefix comes strictly first: `(10, 0)` sorts before `(10, 0, 0, 1)`. */
  lemma {:induction false} TupleLePrefix(a: seq<int>, b: seq<int>)
    requires |a| < |b| && a == b[..|a|]
    ensures TupleLe(a, b) && !TupleLe(b, a)
    decreases |a|
  {
    if |a| > 0 {
      assert a[1..] == b[1..][..|a| - 1];
      TupleLePrefix(a[1..], b[1..]);
    }
  }

  /** Past a common prefix, the first differing position decides the order. */
  lemma {:induction false} TupleLeFirstDifference(a: seq<int>, b: seq<int>, i: nat)
    requires i < |a| && i < |b| && a[..i] == b[..i] && a[i] != b[i]
    ensures TupleLe(a, b) <==> a[i] < b[i]
    decreases i
  {
    if i > 0 {
      assert a[0] == a[..i][0] == b[..i][0] == b[0];
      assert a[1..][..i - 1] == a[..i][1..] == b[..i][1..] == b[1..][..i - 1];
      TupleLeFirstDifference(a[1..], b[1..], i - 1);
    }
  }

  /** The hosts the counting loop adds one to, in row order. */
  function Kept(rows: seq<ConnRow>): seq<string>
    decreases |rows|
  {
    if |rows| == 0 then []
    else
      var row := rows[|rows| - 1];
      var before := Kept(rows[..|rows| - 1]);
      if Watched(row) && Numeric(HostOf(row)) then before + [HostOf(row)] else before
  }

  /** Every kept host passed the filter. */
  lemma {:induction false} KeptNumeric(rows: seq<ConnRow>)
    ensures forall i :: 0 <= i < |Kept(rows)| ==> Numeric(Kept(rows)[i])
    decreases |rows|
  {
    if |rows| > 0 {
      KeptNumeric(rows[..|rows| - 1]);
    }
  }

  /** How many times h occurs in hs. */
  function Occurrences(hs: seq<string>, h: string): nat
    decreases |hs|
  {
    if |hs| == 0 then 0
    else Occurrences(hs[..|hs| - 1], h) + (if hs[|hs| - 1] == h then 1 else 0)
  }

  lemma {:induction false} OccurrencesPositive(hs: seq<string>, h: string)
    ensures Occurrences(hs, h) > 0 <==> h in hs
    decreases |hs|
  {
    if |hs| > 0 {
      var init := hs[..|hs| - 1];
      OccurrencesPositive(init, h);
      assert hs == init + [hs[|hs| - 1]];
    }
  }

  /** The kept hosts described directly: the numeric hosts of the watched rows. */
  lemma {:induction false} KeptHosts(rows: seq<ConnRow>, h: string)
    ensures h in Kept(rows) <==> exists row :: row in rows && Watched(row) && HostOf(row) == h && Numeric(h)
    decreases |rows|
  {
    if |rows| > 0 {
      var init := rows[..|rows| - 1];
      var last := rows[|rows| - 1];
      KeptHosts(init, h);
      assert rows == init + [last];
      if h in Kept(rows) && !(h in Kept(init)) {
        assert last in rows && Watched(last) && HostOf(last) == h;
      }
      if h !in Kept(rows) {
        forall row | row in rows && Watched(row) && HostOf(row) == h
          ensures !Numeric(h)
        {
          if row == last {
          } else {
            assert row in init;
          }
        }
      }
    }
  }

  /** Hosts in ascending tuple order (hosts with equal tuples may come in either order). */
  ghost predicate SortedByTuple(hs: seq<string>)
  {
    && (forall i :: 0 <= i < |hs| ==> Numeric(hs[i]))
    && SortedBy(hs, Key)
  }

  /** hs in ascending order of the tuples key gives them. */
  ghost predicate SortedBy(hs: seq<string>, key: string -> seq<int>)
  {
    forall i, j :: 0 <= i < j < |hs| ==> TupleLe(key(hs[i]), key(hs[j]))
  }

  /** h placed into hs after the leading hosts whose tuple is not at least h's. */
  function Insert(hs: seq<string>, h: string, key: string -> seq<int>): (r: seq<string>)
    ensures |r| == |hs| + 1
    ensures multiset(r) == multiset(hs) + multiset{h}
    decreases |hs|
  {
    if |hs| == 0 || TupleLe(key(h), key(hs[0])) then [h] + hs
    else
      assert hs == [hs[0]] + hs[1..];
      [hs[0]] + Insert(hs[1..], h, key)
  }

  /** A lower bound of h and of every host in hs bounds every host after the insertion. */
  lemma {:induction false} InsertBound(hs: seq<string>, h: string, lo: seq<int>, key: string -> seq<int>)
    requires TupleLe(lo, key(h))
    requires forall i :: 0 <= i < |hs| ==> TupleLe(lo, key(hs[i]))
    ensures forall i :: 0 <= i < |hs| + 1 ==> TupleLe(lo, key(Insert(hs, h, key)[i]))
    decreases |hs|
  {
    if |hs| > 0 && !TupleLe(key(h), key(hs[0])) {
      InsertBound(hs[1..], h, lo, key);
      var r := Insert(hs, h, key);
      assert forall i :: 1 <= i < |r| ==> r[i] == Insert(hs[1..], h, key)[i - 1];
    }
  }

  /** Insertion keeps a sorted listing sorted. */
  lemma {:induction false} InsertSorted(hs: seq<string>, h: string, key: string -> seq<int>)
    requires SortedBy(hs, key)
    ensures SortedBy(Insert(hs, h, key), key)
    decreases |hs|
  {
    if |hs| == 0 {
    } else if TupleLe(key(h), key(hs[0])) {
      forall j | 0 <= j < |hs| ensures TupleLe(key(h), key(hs[j])) {
        if j > 0 {
          TupleLeTransitive(key(h), key(hs[0]), key(hs[j]));
        }
      }
      ConsSorted(h, hs, key);
    } else {
      var rest := Insert(hs[1..], h, key);
      assert Insert(hs, h, key) == [hs[0]] + rest;
      InsertSorted(hs[1..], h, key);
      TupleLeTotal(key(h), key(hs[0]));
      InsertBound(hs[1..], h, key(hs[0]), key);
      ConsSorted(hs[0], rest, key);
    }
  }

  /** A host at or below every host of a sorted listing goes in front of it. */
  lemma ConsSorted(x: string, hs: seq<string>, key: string -> seq<int>)
    requires SortedBy(hs, key)
    requires forall j :: 0 <= j < |hs| ==> TupleLe(key(x), key(hs[j]))
    ensures SortedBy([x] + hs, key)
  {
    var r := [x] + hs;
    forall i, j | 0 <= i < j < |r| ensures TupleLe(key(r[i]), key(r[j])) {
      assert r[j] == hs[j - 1];
      if i > 0 {
        assert r[i] == hs[i - 1];
      }
    }
  }

  /** The same hosts in another order all passed the filter too. */
  lemma NumericPermutation(r: seq<string>, hs: seq<string>)
    requires multiset(r) == multiset(hs)
    requires forall i :: 0 <= i < |hs| ==> Numeric(hs[i])
    ensures forall i :: 0 <= i < |r| ==> Numeric(r[i])
  {
    forall i | 0 <= i < |r| ensures Numeric(r[i]) {
      assert r[i] in multiset(hs);
      var j :| 0 <= j < |hs| && hs[j] == r[i];
    }
  }

  /** `ipkeys.sort(cmp=...)`: the keys, each once, in ascending tuple order. */
  function SortByTuple(hs: seq<string>): (r: seq<string>)
    requires forall i :: 0 <= i < |hs| ==> Numeric(hs[i])
    ensures SortedByTuple(r)
    ensures multiset(r) == multiset(hs)
  {
    var r := InsertionSort(hs, Key);
    NumericPermutation(r, hs);
    r
  }

  /** Insertion sort by the tuples key gives. */
  function InsertionSort(hs: seq<string>, key: string -> seq<int>): (r: seq<string>)
    ensures SortedBy(r, key)
    ensures multiset(r) == multiset(hs)
    decreases |hs|
  {
    if |hs| == 0 then []
    else
      var init := hs[..|hs| - 1];
      assert hs == init + [hs[|hs| - 1]];
      var sorted := InsertionSort(init, key);
      InsertSorted(sorted, hs[|hs| - 1], key);
      Insert(sorted, hs[|hs| - 1], key)
  }

  /** The per-host counts of one block, as `iplist` holds them after the loop. */
  ghost predicate CountsOf(rows: seq<ConnRow>, counts: map<string, nat>) {
    Tally(Kept(rows), counts)
  }

  /** counts holds each host of hs, and nothing else, with the number of times it occurs. */
  ghost predicate Tally(hs: seq<string>, counts: map<string, nat>) {
    && (forall h :: h in counts <==> h in hs)
    && (forall h :: h in counts ==> counts[h] == Occurrences(hs, h))
  }

  /** Adding one to a host's count (from 0 when it is new) tallies one more occurrence of it. */
  lemma TallyAdd(hs: seq<string>, counts: map<string, nat>, host: string)
    requires Tally(hs, counts)
    ensures Tally(hs + [host], counts[host := (if host in counts then counts[host] else 0) + 1])
  {
    var hs' := hs + [host];
    assert hs'[..|hs'| - 1] == hs;
    OccurrencesPositive(hs, host);
  }

  /** The per-host counts summed in the order of hs. */
  function SumOver(hs: seq<string>, counts: map<string, nat>): nat
    requires forall i :: 0 <= i < |hs| ==> hs[i] in counts
    decreases |hs|
  {
    if |hs| == 0 then 0 else counts[hs[0]] + SumOver(hs[1..], counts)
  }

  /** The counting loop of `printnetstat`: a fresh map, one added per watched row whose host is numeric. */
  method CountHosts(rows: seq<ConnRow>) returns (counts: map<string, nat>)
    ensures CountsOf(rows, counts)
  {
    counts := map[];
    var i := 0;
    while i < |rows|
      invariant 0 <= i <= |rows| && CountsOf(rows[..i], counts)
    {
      ghost var before := counts;
      var row := rows[i];
      if Watched(row) {
        var host := HostOf(row);
        var test := Octets(host);
        if test.Some? {
          var seen := if host in counts then counts[host] else 0;
          counts := counts[host := seen + 1];
        }
      }
      CountStep(rows, i, before, counts);
      i := i + 1;
    }
    assert rows[..i] == rows;
  }

  /** One more row: the loop body adds one to its host's count exactly when the row's host is kept. */
  lemma CountStep(rows: seq<ConnRow>, i: nat, counts: map<string, nat>, counts': map<string, nat>)
    requires i < |rows| && CountsOf(rows[..i], counts)
    requires var row := rows[i]; var host := HostOf(row);
      counts' == if Watched(row) && Numeric(host) then counts[host := (if host in counts then counts[host] else 0) + 1] else counts
    ensures CountsOf(rows[..i + 1], counts')
  {
    assert rows[..i + 1][..i] == rows[..i];
    if Watched(rows[i]) && Numeric(HostOf(rows[i])) {
      TallyAdd(Kept(rows[..i]), counts, HostOf(rows[i]));
    }
  }

  /** `iplist.keys()`: the keys of the map, each once, in no particular order. */
  method KeysOf(counts: map<string, nat>) returns (keys: seq<string>)
    ensures multiset(keys) == multiset(counts.Keys)
    ensures forall j :: 0 <= j < |keys| ==> keys[j] in counts
  {
    keys := [];
    var pending := counts.Keys;
    while pending != {}
      invariant pending <= counts.Keys
      invariant multiset(keys) + multiset(pending) == multiset(counts.Keys)
      invariant forall j :: 0 <= j < |keys| ==> keys[j] in counts
      decreases |pending|
    {
      var h :| h in pending;
      assert multiset(pending - {h}) + multiset{h} == multiset(pending);
      keys := keys + [h];
      pending := pending - {h};
    }
  }

  /**
    `printnetstat` up to the sort: the watched rows' numeric hosts counted
    into a fresh map, then its keys in ascending tuple order.
  */
  method Aggregate(rows: seq<ConnRow>) returns (hosts: seq<string>, counts: map<string, nat>)
    ensures CountsOf(rows, counts)
    ensures multiset(hosts) == multiset(counts.Keys)
    ensures SortedByTuple(hosts)
    ensures (forall i :: 0 <= i < |hosts| ==> hosts[i] in counts) && SumOver(hosts, counts) == |Kept(rows)|
  {
    counts := CountHosts(rows);
    var keys := KeysOf(counts);
    KeptNumeric(rows);
    forall j | 0 <= j < |keys| ensures Numeric(keys[j]) {
      OccurrencesPositive(Kept(rows), keys[j]);
      var k :| 0 <= k < |Kept(rows)| && Kept(rows)[k] == keys[j];
    }
    hosts := SortByTuple(keys);
    forall j | 0 <= j < |hosts| ensures hosts[j] in counts {
      assert hosts[j] in multiset(hosts);
    }
    CountsAddUp(rows, hosts, counts);
  }

  // The sum of the counts

  /** How many entries of hs lie in s. */
  function CountIn(hs: seq<string>, s: set<string>): nat
    decreases |hs|
  {
    if |hs| == 0 then 0
    else CountIn(hs[..|hs| - 1], s) + (if hs[|hs| - 1] in s then 1 else 0)
  }

  lemma {:induction false} CountInRemove(hs: seq<string>, s: set<string>, h: string)
    requires h in s
    ensures CountIn(hs, s) == CountIn(hs, s - {h}) + Occurrences(hs, h)
    decreases |hs|
  {
    if |hs| > 0 {
      CountInRemove(hs[..|hs| - 1], s, h);
    }
  }

  lemma {:induction false} CountInAll(hs: seq<string>, s: set<string>)
    requires forall i :: 0 <= i < |hs| ==> hs[i] in s
    ensures CountIn(hs, s) == |hs|
    decreases |hs|
  {
    if |hs| > 0 {
      CountInAll(hs[..|hs| - 1], s);
    }
  }

  lemma {:induction false} CountInNone(hs: seq<string>)
    ensures CountIn(hs, {}) == 0
    decreases |hs|
  {
    if |hs| > 0 {
      CountInNone(hs[..|hs| - 1]);
    }
  }

  /** Summing the counts over any listing of the keys that names each once counts the hosts of the listing's key set. */
  lemma {:induction false} SumOverKeys(kept: seq<string>, hs: seq<string>, s: set<string>, counts: map<string, nat>)
    requires multiset(hs) == multiset(s)
    requires forall h :: h in s ==> h in counts && counts[h] == Occurrences(kept, h)
    requires forall i :: 0 <= i < |hs| ==> hs[i] in counts
    ensures SumOver(hs, counts) == CountIn(kept, s)
    decreases |hs|
  {
    if |hs| == 0 {
      assert s == {} by {
        forall h ensures h !in s {
          assert multiset(s)[h] == 0;
        }
      }
      CountInNone(kept);
    } else {
      var h := hs[0];
      assert hs == [h] + hs[1..];
      assert h in multiset(s);
      var s' := s - {h};
      assert multiset(s') + multiset{h} == multiset(s);
      assert multiset(hs) == multiset{h} + multiset(hs[1..]);
      calc {
        multiset(hs[1..]);
        multiset(hs) - multiset{h};
        multiset(s) - multiset{h};
        multiset(s');
      }
      SumOverKeys(kept, hs[1..], s', counts);
      CountInRemove(kept, s, h);
    }
  }

  /** The counts add up to the number of watched rows with a numeric host. */
  lemma CountsAddUp(rows: seq<ConnRow>, hosts: seq<string>, counts: map<string, nat>)
    requires CountsOf(rows, counts)
    requires multiset(hosts) == multiset(counts.Keys)
    requires forall i :: 0 <= i < |hosts| ==> hosts[i] in counts
    ensures SumOver(hosts, counts) == |Kept(rows)|
  {
    SumOverKeys(Kept(rows), hosts, counts.Keys, counts);
    CountInAll(Kept(rows), counts.Keys);
  }

  // Dotted hosts

  /** The text `n1.n2. ... .nk` of a tuple of naturals. */
  function Dotted(ns: seq<nat>): (r: string)
    requires |ns| >= 1
    decreases |ns|
  {
    if |ns| == 1 then Strings.Show(ns[0]) else Strings.Show(ns[0]) + "." + Dotted(ns[1..])
  }

  lemma {:induction false} DottedPieces(ns: seq<nat>)
    requires |ns| >= 1
    ensures Strings.Split(Dotted(ns), '.') == seq(|ns|, i requires 0 <= i < |ns| => Strings.Show(ns[i]))
    decreases |ns|
  {
    var pieces := seq(|ns|, i requires 0 <= i < |ns| => Strings.Show(ns[i]));
    assert forall i :: 0 <= i < |ns| ==> '.' !in pieces[i];
    assert Strings.Join(pieces, '.') == Dotted(ns) by {
      DottedJoin(ns);
    }
    Strings.SplitJoin(pieces, '.');
  }

  lemma {:induction false} DottedJoin(ns: seq<nat>)
    requires |ns| >= 1
    ensures Strings.Join(seq(|ns|, i requires 0 <= i < |ns| => Strings.Show(ns[i])), '.') == Dotted(ns)
    decreases |ns|
  {
    if |ns| > 1 {
      DottedJoin(ns[1..]);
      var pieces := seq(|ns|, i requires 0 <= i < |ns| => Strings.Show(ns[i]));
      assert pieces[1..] == seq(|ns| - 1, i requires 0 <= i < |ns| - 1 => Strings.Show(ns[1..][i]));
    }
  }

  /** A dotted host is kept with exactly its numbers as its key, whatever their size or count. */
  lemma KeyOfDotted(ns: seq<nat>)
    requires |ns| >= 1
    ensures Numeric(Dotted(ns)) && Key(Dotted(ns)) == ns
  {
    DottedPieces(ns);
    var pieces := Strings.Split(Dotted(ns), '.');
    forall i | 0 <= i < |ns| ensures Strings.ParseInt(pieces[i]) == Some(ns[i] as int) {
      Strings.ParseShow(ns[i]);
    }
    var r := ParseAll(pieces);
    assert r.Some?;
    assert r.value == ns;
  }

  /** `9.0.0.1` sorts before `10.0.0.5`: the order is numeric, not textual, and strict. */
  lemma NumericNotTextual()
    ensures Numeric(Dotted([9, 0, 0, 1])) && Numeric(Dotted([10, 0, 0, 5]))
    ensures TupleLe(Key(Dotted([9, 0, 0, 1])), Key(Dotted([10, 0, 0, 5])))
    ensures !TupleLe(Key(Dotted([10, 0, 0, 5])), Key(Dotted([9, 0, 0, 1])))
  {
    KeyOfDotted([9, 0, 0, 1]);
    KeyOfDotted([10, 0, 0, 5]);
  }

  /** `999.1.1.1` and a five-piece host pass the filter: pieces are not range-checked or counted. */
  lemma NoRangeCheck()
    ensures Numeric(Dotted([999, 1, 1, 1])) && Numeric(Dotted([1, 2, 3, 4, 5]))
  {
    KeyOfDotted([999, 1, 1, 1]);
    KeyOfDotted([1, 2, 3, 4, 5]);
  }

  /** A host with an empty piece (such as the empty host of an IPv6 address `::1`) is dropped. */
  lemma EmptyPieceDropped(host: string)
    requires "" in Strings.Split(host, '.')
    ensures !Numeric(host)
  {
    var pieces := Strings.Split(host, '.');
    var k :| 0 <= k < |pieces| && pieces[k] == "";
    assert Strings.ParseInt(pieces[k]).None?;
  }
}
