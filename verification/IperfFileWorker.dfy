/** The consumer of the batches: per-stream columns for the plot, and the averages apart. */
module IperfFileWorker {
  import opened IperfParser
  import opened Text

  /** C++ integer division. */
  function TruncDiv(a: int, b: int): int
    requires b > 0
  {
    if a >= 0 then a / b else -(-a / b)
  }

  function LostRate(lost: int, total: int): int {
    if total > 0 then TruncDiv(lost, total) * 100 else 0
  }

  const GRAPH_TX := "TX"

  /** 0: sent, 1: received. */
  function Direction(dir: string): int {
    if Contains(dir, GRAPH_TX) then 0 else 1
  }

  /** The division truncates before it is scaled, so a partial loss shows as none at all. */
  lemma PartialLossShowsAsZero(lost: int, total: int)
    ensures LostRate(lost, total) == 0 <==> total <= 0 || -total < lost < total
  {
  }

  /** A record plots as sent exactly when its tag has "TX" in it, in capitals. */
  lemma PlotsAsSentIff(dir: string)
    ensures Direction(dir) == 0 <==> exists i: nat :: OccursAt(dir, "TX", i)
  {
    ContainsIff(dir, GRAPH_TX);
  }

  lemma NoCapitalTx(dir: string)
    requires 'X' !in dir
    ensures Direction(dir) == 1
  {
    PlotsAsSentIff(dir);
    forall i: nat ensures !OccursAt(dir, "TX", i) {
      if i + 2 <= |dir| {
        assert dir[i..i + 2][1] == dir[i + 1] && dir[i + 1] in dir;
      }
    }
  }

  /** The tags the tool writes are "Tx" and "Rx", and the comparison is case sensitive. */
  lemma BothTagsPlotAsReceived()
    ensures Direction("Tx") == Direction("Rx") == 1
  {
    NoCapitalTx("Tx");
    NoCapitalTx("Rx");
  }

  /** One sample of a stream, and an average report. */
  datatype Row = Row(time: int, value: real, lost: int, total: int, rate: int, direction: int)
  datatype Average = Average(time: int, idx: string, value: real, lost: int, total: int, dir: string)

  function RowOf(time: int, r: Record): Row {
    Row(time, r.value, r.lost, r.total, LostRate(r.lost, r.total), Direction(r.dir))
  }

  function AverageOf(time: int, r: Record): Average {
    Average(time, r.idx, r.value, r.lost, r.total, r.dir)
  }

  function StreamKey(refrow: string, r: Record): string {
    refrow + "_" + r.idx
  }

  // ----- the simple specification: the rows of a stream, batch after batch

  /** What a record adds to the rows of a stream. */
  function RowFor(refrow: string, time: int, r: Record, key: string): seq<Row> {
    if !r.avg && StreamKey(refrow, r) == key then [RowOf(time, r)] else []
  }

  function RowsOfBatch(refrow: string, time: int, records: seq<Record>, key: string): seq<Row> {
    if records == [] then [] else
      var r := records[|records| - 1];
      RowsOfBatch(refrow, time, records[..|records| - 1], key)
        + RowFor(refrow, time, r, key)
  }

  function RowsOf(refrow: string, batches: seq<Batch>, key: string): seq<Row> {
    if batches == [] then [] else
      var b := batches[|batches| - 1];
      RowsOf(refrow, batches[..|batches| - 1], key) + RowsOfBatch(refrow, b.time, b.records, key)
  }

  function AveragesOfBatch(time: int, records: seq<Record>): seq<Average> {
    if records == [] then [] else
      var r := records[|records| - 1];
      AveragesOfBatch(time, records[..|records| - 1]) + if r.avg then [AverageOf(time, r)] else []
  }

  function AveragesOf(batches: seq<Batch>): seq<Average> {
    if batches == [] then [] else
      var b := batches[|batches| - 1];
      AveragesOf(batches[..|batches| - 1]) + AveragesOfBatch(b.time, b.records)
  }

  // ----- what the rows hold, in terms of the records' own fields

  /** The samples of a stream in a batch, and in a list of batches, in order, each with its time. */
  ghost function SamplesOfBatch(refrow: string, time: int, records: seq<Record>, key: string): seq<(int, Record)> {
    if records == [] then [] else
      var r := records[|records| - 1];
      SamplesOfBatch(refrow, time, records[..|records| - 1], key)
        + if !r.avg && refrow + "_" + r.idx == key then [(time, r)] else []
  }

  ghost function Samples(refrow: string, batches: seq<Batch>, key: string): seq<(int, Record)> {
    if batches == [] then [] else
      var b := batches[|batches| - 1];
      Samples(refrow, batches[..|batches| - 1], key) + SamplesOfBatch(refrow, b.time, b.records, key)
  }

  /** The average reports of a batch and of a list of batches. */
  ghost function ReportsOfBatch(time: int, records: seq<Record>): seq<(int, Record)> {
    if records == [] then [] else
      var r := records[|records| - 1];
      ReportsOfBatch(time, records[..|records| - 1]) + if r.avg then [(time, r)] else []
  }

  ghost function Reports(batches: seq<Batch>): seq<(int, Record)> {
    if batches == [] then [] else
      var b := batches[|batches| - 1];
      Reports(batches[..|batches| - 1]) + ReportsOfBatch(b.time, b.records)
  }

  /** q is a over b without its fraction. */
  ghost predicate IsQuotient(q: int, a: int, b: int) {
    if a >= 0 then q * b <= a < (q + 1) * b else (q - 1) * b < a <= q * b
  }

  /** A hundred times the quotient of lost and total; nothing without packets. */
  ghost predicate IsLossRate(rate: int, lost: int, total: int) {
    if total <= 0 then rate == 0 else exists q :: IsQuotient(q, lost, total) && rate == 100 * q
  }

  lemma LostRateIsLossRate(lost: int, total: int)
    ensures IsLossRate(LostRate(lost, total), lost, total)
  {
    if total > 0 {
      assert IsQuotient(TruncDiv(lost, total), lost, total);
    }
  }

  ghost predicate NamesTX(dir: string) {
    exists i: nat :: OccursAt(dir, "TX", i)
  }

  ghost predicate HoldsSample(row: Row, sample: (int, Record)) {
    var (time, r) := sample;
    && row.time == time && row.value == r.value && row.lost == r.lost && row.total == r.total
    && IsLossRate(row.rate, r.lost, r.total)
    && row.direction == if NamesTX(r.dir) then 0 else 1
  }

  ghost predicate HoldsReport(a: Average, report: (int, Record)) {
    var (time, r) := report;
    a.time == time && a.idx == r.idx && a.value == r.value && a.lost == r.lost && a.total == r.total && a.dir == r.dir
  }

  lemma RowHoldsSample(time: int, r: Record)
    ensures HoldsSample(RowOf(time, r), (time, r))
  {
    LostRateIsLossRate(r.lost, r.total);
    PlotsAsSentIff(r.dir);
  }

  ghost predicate RowsHold(rows: seq<Row>, samples: seq<(int, Record)>) {
    |rows| == |samples| && forall i :: 0 <= i < |rows| ==> HoldsSample(rows[i], samples[i])
  }

  lemma RowsHoldAppend(a: seq<Row>, x: seq<(int, Record)>, b: seq<Row>, y: seq<(int, Record)>)
    requires RowsHold(a, x) && RowsHold(b, y)
    ensures RowsHold(a + b, x + y)
  {
  }

  /** What a batch adds to a stream are its samples of that stream. */
  lemma {:induction false} BatchRowsHold(refrow: string, time: int, records: seq<Record>, key: string)
    ensures RowsHold(RowsOfBatch(refrow, time, records, key), SamplesOfBatch(refrow, time, records, key))
  {
    hide HoldsSample;
    if records == [] {
    } else {
      var n := |records| - 1;
      BatchRowsHold(refrow, time, records[..n], key);
      RowHoldsSample(time, records[n]);
    }
  }

  lemma {:induction false} RowsHoldSamples(refrow: string, batches: seq<Batch>, key: string)
    ensures RowsHold(RowsOf(refrow, batches, key), Samples(refrow, batches, key))
  {
    if batches == [] {
    } else {
      var n := |batches| - 1;
      var b := batches[n];
      RowsHoldSamples(refrow, batches[..n], key);
      BatchRowsHold(refrow, b.time, b.records, key);
      RowsHoldAppend(RowsOf(refrow, batches[..n], key), Samples(refrow, batches[..n], key),
                     RowsOfBatch(refrow, b.time, b.records, key), SamplesOfBatch(refrow, b.time, b.records, key));
    }
  }

  ghost predicate AveragesHold(averages: seq<Average>, reports: seq<(int, Record)>) {
    |averages| == |reports| && forall i :: 0 <= i < |averages| ==> HoldsReport(averages[i], reports[i])
  }

  lemma {:induction false} BatchAveragesHold(time: int, records: seq<Record>)
    ensures AveragesHold(AveragesOfBatch(time, records), ReportsOfBatch(time, records))
  {
    if records == [] {
    } else {
      BatchAveragesHold(time, records[..|records| - 1]);
    }
  }

  /** The averages passed on are the average reports, field by field and in order. */
  lemma {:induction false} AveragesHoldReports(batches: seq<Batch>)
    ensures AveragesHold(AveragesOf(batches), Reports(batches))
  {
    if batches == [] {
    } else {
      var n := |batches| - 1;
      AveragesHoldReports(batches[..n]);
      BatchAveragesHold(batches[n].time, batches[n].records);
    }
  }

  // ----- the objects

  class TPData {
    var timeDatas: seq<int>
    var valueDatas: seq<real>
    var packetLost: seq<int>
    var packetTotal: seq<int>
    var lostrate: seq<int>
    var direction: int

    /** The five columns and the direction are exactly those of the given rows. */
    ghost predicate Holds(rows: seq<Row>)
      reads this
    {
      && timeDatas == seq(|rows|, i requires 0 <= i < |rows| => rows[i].time)
      && valueDatas == seq(|rows|, i requires 0 <= i < |rows| => rows[i].value)
      && packetLost == seq(|rows|, i requires 0 <= i < |rows| => rows[i].lost)
      && packetTotal == seq(|rows|, i requires 0 <= i < |rows| => rows[i].total)
      && lostrate == seq(|rows|, i requires 0 <= i < |rows| => rows[i].rate)
      && (rows != [] ==> direction == rows[|rows| - 1].direction)
    }

    /** Position by position the columns show the samples' times and numbers; the direction is the last one's. */
    ghost predicate Shows(samples: seq<(int, Record)>)
      reads this
    {
      && |timeDatas| == |valueDatas| == |packetLost| == |packetTotal| == |lostrate| == |samples|
      && (forall i :: 0 <= i < |samples| ==>
        && timeDatas[i] == samples[i].0
        && valueDatas[i] == samples[i].1.value
        && packetLost[i] == samples[i].1.lost
        && packetTotal[i] == samples[i].1.total
        && IsLossRate(lostrate[i], samples[i].1.lost, samples[i].1.total))
      && (samples != [] ==> direction == if NamesTX(samples[|samples| - 1].1.dir) then 0 else 1)
    }

    lemma HoldsThenShows(rows: seq<Row>, samples: seq<(int, Record)>)
      requires Holds(rows) && RowsHold(rows, samples)
      ensures Shows(samples)
    {
      hide IsLossRate;
      assert forall i :: 0 <= i < |rows| ==> HoldsSample(rows[i], samples[i]);
    }

    constructor ()
      ensures Holds([])
    {
      timeDatas, valueDatas, packetLost, packetTotal, lostrate := [], [], [], [], [];
    }

    method Append(r: Row, ghost rows: seq<Row>)
      requires Holds(rows)
      modifies this
      ensures Holds(rows + [r])
    {
      timeDatas := timeDatas + [r.time];
      valueDatas := valueDatas + [r.value];
      packetLost := packetLost + [r.lost];
      packetTotal := packetTotal + [r.total];
      lostrate := lostrate + [r.rate];
      direction := r.direction;
    }
  }

  /** The rows each stream should have. */
  type Rows = string -> seq<Row>

  ghost function Extended(rows: Rows, key: string, row: Row): Rows {
    (k: string) => if k == key then rows(k) + [row] else rows(k)
  }

  /** The rows of every stream over a list of batches. */
  ghost function AllRows(refrow: string, batches: seq<Batch>): Rows {
    (k: string) => RowsOf(refrow, batches, k)
  }

  /** The rows after the first i records of a batch. */
  ghost function After(rows: Rows, refrow: string, b: Batch, i: nat): Rows
    requires i <= |b.records|
  {
    (k: string) => rows(k) + RowsOfBatch(refrow, b.time, b.records[..i], k)
  }

  lemma AllRowsStep(refrow: string, batches: seq<Batch>, i: nat)
    requires i < |batches|
    ensures var b := batches[i]; forall k ::
      After(AllRows(refrow, batches[..i]), refrow, b, |b.records|)(k) == AllRows(refrow, batches[..i + 1])(k)
  {
    assert batches[..i + 1][..i] == batches[..i];
    assert batches[i].records[..|batches[i].records|] == batches[i].records;
  }

  lemma AveragesStep(b: Batch, i: nat, before: seq<Average>)
    requires i < |b.records|
    ensures before + AveragesOfBatch(b.time, b.records[..i + 1]) ==
      (before + AveragesOfBatch(b.time, b.records[..i]))
        + if b.records[i].avg then [AverageOf(b.time, b.records[i])] else []
  {
    assert b.records[..i + 1][..i] == b.records[..i];
  }

  lemma AfterNone(rows: Rows, refrow: string, b: Batch)
    ensures forall k :: After(rows, refrow, b, 0)(k) == rows(k)
  {
  }

  lemma AfterStep(rows: Rows, refrow: string, b: Batch, i: nat)
    requires i < |b.records|
    ensures forall k :: After(rows, refrow, b, i + 1)(k) ==
                        After(rows, refrow, b, i)(k) + RowFor(refrow, b.time, b.records[i], k)
  {
    assert b.records[..i + 1][..i] == b.records[..i];
    forall k ensures After(rows, refrow, b, i + 1)(k) ==
                     After(rows, refrow, b, i)(k) + RowFor(refrow, b.time, b.records[i], k) {
      var x, y := RowsOfBatch(refrow, b.time, b.records[..i], k), RowFor(refrow, b.time, b.records[i], k);
      assert rows(k) + (x + y) == (rows(k) + x) + y;
    }
  }

  class Worker {
    var datas: map<string, TPData>
    var averages: seq<Average>
    const refrow: string
    const bidirtag: string

    /** No two streams share an object. */
    ghost predicate Separate()
      reads this
    {
      forall k, m :: k in datas && m in datas && k != m ==> datas[k] != datas[m]
    }

    /** Exactly the streams with rows have an object, and it holds those rows. */
    ghost predicate Holds(rows: Rows)
      reads this, datas.Values
    {
      && Separate()
      && (forall k :: k in datas <==> rows(k) != [])
      && (forall k :: k in datas ==> datas[k].Holds(rows(k)))
    }

    constructor (refrow: string, bidirtag: string)
      ensures datas == map[] && averages == [] && this.refrow == refrow && this.bidirtag == bidirtag
    {
      datas, averages := map[], [];
      this.refrow, this.bidirtag := refrow, bidirtag;
    }

    /** The object of a stream, made on first use. */
    method StreamFor(key: string) returns (tpdata: TPData)
      requires Separate()
      modifies this`datas
      ensures datas == old(datas)[key := tpdata] && Separate()
      ensures if key in old(datas) then tpdata == old(datas)[key] else fresh(tpdata) && tpdata.Holds([])
    {
      if key in datas {
        tpdata := datas[key];
      } else {
        tpdata := new TPData();
        datas := datas[key := tpdata];
      }
    }

    /** Every object is an old one or new: what callers need to know about the frame. */
    twostate predicate OnlyNewObjects()
      reads this
    {
      forall k :: k in datas ==> datas[k] in old(datas.Values) || fresh(datas[k])
    }

    /** Appending a sample to a stream's columns. */
    method Collect(key: string, row: Row, ghost rows: Rows)
      requires Holds(rows)
      modifies this`datas, datas.Values
      ensures Holds(Extended(rows, key, row))
      ensures OnlyNewObjects()
    {
      hide TPData.Holds;
      var tpdata := StreamFor(key);
      label ready:
      assert tpdata.Holds(rows(key));
      tpdata.Append(row, rows(key));
      forall k | k in datas ensures datas[k].Holds(Extended(rows, key, row)(k)) {
        if k != key {
          assert old@ready(datas[k].Holds(rows(k)));
        }
      }
    }

    /** Holds depends only on what the rows are for each stream. */
    lemma SameRows(rows: Rows, rows': Rows)
      requires Holds(rows) && forall k :: rows(k) == rows'(k)
      ensures Holds(rows')
    {
    }

    /** One record of a batch: an average is passed on, a sample joins its stream's columns. */
    method OnRecord(b: Batch, i: nat, ghost rows: Rows)
      requires i < |b.records| && Holds(After(rows, refrow, b, i))
      modifies this`datas, this`averages, datas.Values
      ensures OnlyNewObjects()
      ensures Holds(After(rows, refrow, b, i + 1))
      ensures averages == old(averages) + if b.records[i].avg then [AverageOf(b.time, b.records[i])] else []
    {
      hide TPData.Holds;
      var r := b.records[i];
      ghost var now := After(rows, refrow, b, i);
      AfterStep(rows, refrow, b, i);
      if r.avg {
        averages := averages + [AverageOf(b.time, r)];
        assert forall k :: now(k) + [] == now(k);
        SameRows(now, After(rows, refrow, b, i + 1));
      } else {
        var key := StreamKey(refrow, r);
        Collect(key, RowOf(b.time, r), now);
        hide Holds;
        SameRows(Extended(now, key, RowOf(b.time, r)), After(rows, refrow, b, i + 1));
      }
    }

    /** One batch arrives; without a direction tag it is dropped. */
    method OnThroughputData(b: Batch, ghost rows: Rows)
      requires Holds(rows)
      modifies this`datas, this`averages, datas.Values
      ensures OnlyNewObjects()
      ensures bidirtag == "" ==> datas == old(datas) && averages == old(averages) && Holds(rows)
      ensures bidirtag != "" ==> Holds(After(rows, refrow, b, |b.records|))
      ensures bidirtag != "" ==> averages == old(averages) + AveragesOfBatch(b.time, b.records)
    {
      if bidirtag == "" {
        return;
      }
      AfterNone(rows, refrow, b);
      SameRows(rows, After(rows, refrow, b, 0));
      hide Holds, After;
      for i := 0 to |b.records|
        invariant OnlyNewObjects()
        invariant Holds(After(rows, refrow, b, i))
        invariant averages == old(averages) + AveragesOfBatch(b.time, b.records[..i])
      {
        AveragesStep(b, i, old(averages));
        OnRecord(b, i, rows);
      }
      assert b.records[..|b.records|] == b.records;
    }

    /** Exactly the streams with samples have an object, and it shows them; the averages are the reports. */
    ghost predicate ShowsAll(batches: seq<Batch>)
      reads this, datas.Values
    {
      && (forall k :: k in datas <==> Samples(refrow, batches, k) != [])
      && (forall k :: k in datas ==> datas[k].Shows(Samples(refrow, batches, k)))
      && AveragesHold(averages, Reports(batches))
    }

    lemma HoldsThenShowsAll(batches: seq<Batch>)
      requires Holds(AllRows(refrow, batches)) && averages == AveragesOf(batches)
      ensures ShowsAll(batches)
    {
      hide TPData.Holds, TPData.Shows, HoldsSample, HoldsReport, RowsOf, Samples, AveragesOf, Reports;
      forall k ensures RowsHold(RowsOf(refrow, batches, k), Samples(refrow, batches, k)) {
        RowsHoldSamples(refrow, batches, k);
      }
      forall k | k in datas ensures datas[k].Shows(Samples(refrow, batches, k)) {
        datas[k].HoldsThenShows(AllRows(refrow, batches)(k), Samples(refrow, batches, k));
      }
      AveragesHoldReports(batches);
    }

    /** The batches of a whole log arrive one after the other. */
    method Replay(batches: seq<Batch>)
      requires datas == map[] && averages == [] && bidirtag != ""
      modifies this`datas, this`averages
      ensures Holds(AllRows(refrow, batches))
      ensures averages == AveragesOf(batches)
      ensures ShowsAll(batches)
    {
      assert Holds(AllRows(refrow, batches[..0]));
      hide Holds, After, AllRows;
      for i := 0 to |batches|
        invariant forall k :: k in datas ==> fresh(datas[k])
        invariant Holds(AllRows(refrow, batches[..i]))
        invariant averages == AveragesOf(batches[..i])
      {
        ghost var rows := AllRows(refrow, batches[..i]);
        OnThroughputData(batches[i], rows);
        AllRowsStep(refrow, batches, i);
        SameRows(After(rows, refrow, batches[i], |batches[i].records|), AllRows(refrow, batches[..i + 1]));
        assert batches[..i + 1][..i] == batches[..i];
      }
      assert batches[..|batches|] == batches;
      HoldsThenShowsAll(batches);
    }

    /** When the log is done each stream's columns are sent once, in the order of the keys. */
    method OnWorkFinished() returns (updates: seq<(string, TPData)>)
      ensures forall i, j :: 0 <= i < j < |updates| ==> Less(updates[i].0, updates[j].0)
      ensures forall i :: 0 <= i < |updates| ==> updates[i].0 in datas && datas[updates[i].0] == updates[i].1
      ensures forall k :: k in datas ==> exists i :: 0 <= i < |updates| && updates[i].0 == k
    {
      hide Less;
      updates := [];
      var left := datas.Keys;
      while left != {}
        invariant left <= datas.Keys
        invariant forall i, j :: 0 <= i < j < |updates| ==> Less(updates[i].0, updates[j].0)
        invariant forall i, k :: 0 <= i < |updates| && k in left ==> Less(updates[i].0, k)
        invariant forall i :: 0 <= i < |updates| ==> updates[i].0 in datas && datas[updates[i].0] == updates[i].1
        invariant forall k :: k in datas ==> k in left || exists i :: 0 <= i < |updates| && updates[i].0 == k
        decreases left
      {
        LeastExists(left);
        var k :| k in left && forall m :: m in left ==> m == k || Less(k, m);
        ghost var sent := updates;
        updates := updates + [(k, datas[k])];
        left := left - {k};
        assert forall i :: 0 <= i < |sent| ==> updates[i] == sent[i];
        assert updates[|sent|].0 == k;
      }
    }
  }

  /** Reading a log offline: the parser's batches, each handed to the worker as it is sent. */
  method ReplayLog(settings: Settings, lines: seq<Line>, refrow: string, bidirtag: string) returns (w: Worker)
    requires bidirtag != ""
    ensures w.Holds(AllRows(refrow, Run(settings, lines).sent))
    ensures w.averages == AveragesOf(Run(settings, lines).sent)
    ensures w.refrow == refrow && w.ShowsAll(Run(settings, lines).sent)
  {
    var parser := new Parser(settings);
    parser.ParseLog(lines);
    w := new Worker(refrow, bidirtag);
    w.Replay(parser.sent);
  }

  // ----- no record disappears between the batches and the plot

  ghost function SampleTotal(rows: Rows, keys: seq<string>): nat {
    if keys == [] then 0 else |rows(keys[0])| + SampleTotal(rows, keys[1..])
  }

  ghost predicate Distinct(keys: seq<string>) {
    forall i, j :: 0 <= i < j < |keys| ==> keys[i] != keys[j]
  }

  /** Totals add when the rows do. */
  lemma {:induction false} SampleTotalAdds(a: Rows, b: Rows, c: Rows, keys: seq<string>)
    requires forall k :: |c(k)| == |a(k)| + |b(k)|
    ensures SampleTotal(c, keys) == SampleTotal(a, keys) + SampleTotal(b, keys)
  {
    if keys == [] {
    } else {
      SampleTotalAdds(a, b, c, keys[1..]);
    }
  }

  ghost function RecordRows(refrow: string, time: int, r: Record): Rows {
    (k: string) => RowFor(refrow, time, r, k)
  }

  ghost function BatchRows(refrow: string, time: int, records: seq<Record>): Rows {
    (k: string) => RowsOfBatch(refrow, time, records, k)
  }

  /** A record that is no average is counted once, under its own stream. */
  lemma {:induction false} OneRecordTotal(refrow: string, time: int, r: Record, keys: seq<string>)
    requires Distinct(keys)
    ensures SampleTotal(RecordRows(refrow, time, r), keys) ==
      if !r.avg && StreamKey(refrow, r) in keys then 1 else 0
  {
    if keys == [] {
    } else {
      OneRecordTotal(refrow, time, r, keys[1..]);
      assert keys[0] !in keys[1..];
      assert forall k :: k in keys <==> k == keys[0] || k in keys[1..];
    }
  }

  lemma {:induction false} NoRows(rows: Rows, keys: seq<string>)
    requires forall k :: rows(k) == []
    ensures SampleTotal(rows, keys) == 0
  {
    if keys == [] {
    } else {
      NoRows(rows, keys[1..]);
    }
  }

  lemma {:induction false} BatchTotal(refrow: string, time: int, records: seq<Record>, keys: seq<string>)
    requires Distinct(keys)
    requires forall r :: r in records && !r.avg ==> StreamKey(refrow, r) in keys
    ensures SampleTotal(BatchRows(refrow, time, records), keys) + |AveragesOfBatch(time, records)| == |records|
  {
    if records == [] {
      NoRows(BatchRows(refrow, time, []), keys);
    } else {
      var n := |records| - 1;
      BatchTotal(refrow, time, records[..n], keys);
      OneRecordTotal(refrow, time, records[n], keys);
      SampleTotalAdds(BatchRows(refrow, time, records[..n]), RecordRows(refrow, time, records[n]),
                      BatchRows(refrow, time, records), keys);
    }
  }

  /** The streams of a batch's samples all have rows. */
  lemma {:induction false} BatchStreams(refrow: string, time: int, records: seq<Record>, r: Record)
    requires r in records && !r.avg
    ensures RowsOfBatch(refrow, time, records, StreamKey(refrow, r)) != []
  {
    var n := |records| - 1;
    if r != records[n] {
      BatchStreams(refrow, time, records[..n], r);
    }
  }

  /** The samples of all streams and the averages together are all records the parser sent. */
  lemma {:induction false} SamplesAndAverages(refrow: string, batches: seq<Batch>, keys: seq<string>)
    requires Distinct(keys) && forall k :: RowsOf(refrow, batches, k) != [] ==> k in keys
    ensures SampleTotal(AllRows(refrow, batches), keys) + |AveragesOf(batches)| == RecordTotal(batches)
  {
    if batches == [] {
      NoRows(AllRows(refrow, []), keys);
    } else {
      var n := |batches| - 1;
      var b := batches[n];
      SamplesAndAverages(refrow, batches[..n], keys);
      forall r | r in b.records && !r.avg ensures StreamKey(refrow, r) in keys {
        BatchStreams(refrow, b.time, b.records, r);
      }
      BatchTotal(refrow, b.time, b.records, keys);
      SampleTotalAdds(AllRows(refrow, batches[..n]), BatchRows(refrow, b.time, b.records),
                      AllRows(refrow, batches), keys);
    }
  }

  /**
   From the log to the plot: the samples of all streams, the averages passed on and the records
   still pending are together the accepted lines, exactly when no line is lost.
   */
  lemma EveryLineCountedIff(c: Settings, lines: seq<Line>, refrow: string, keys: seq<string>)
    requires Distinct(keys) && forall k :: RowsOf(refrow, Run(c, lines).sent, k) != [] ==> k in keys
    ensures SampleTotal(AllRows(refrow, Run(c, lines).sent), keys) + |AveragesOf(Run(c, lines).sent)|
        + PendingTotal(Run(c, lines).pending) == AcceptedCount(c, lines)
      <==> c.parallel >= 1 || AcceptedCount(c, lines) == 0
  {
    SamplesAndAverages(refrow, Run(c, lines).sent, keys);
    RecordsCountedIff(c, lines);
  }
}
