/**
 Aggregation of iperf3 output: the records of one interval are collected until there is one per
 parallel stream, then sent as a batch.  Lines arrive here already split into tokens.
 */
module IperfParser {
  import opened Text

  /** One report: interval text, stream index with its tag, and its numbers. */
  datatype Record = Record(key: string, idx: string, avg: bool, value: real, lost: int, total: int, dir: string)

  /**
   A report line.  bracket: what stands between its first brackets; matches: the interval length
   fits the configured one; special: the odd "1.00-1.00" report.
   */
  datatype Line = Line(bracket: string, key: string, avg: bool, value: real, lost: int, total: int, dir: string,
                       matches: bool, special: bool)

  datatype Batch = Batch(time: int, records: seq<Record>)

  /**
   parallel is the converted setting and may be anything; tag tells server from client; number
   converts a text; delay and offset shift the emitted times.
   */
  datatype Settings = Settings(parallel: int, ignoreWrongInterval: bool, tag: string, number: string -> real,
                               delay: int, offset: int)

  datatype State = State(pending: map<string, seq<Record>>, sent: seq<Batch>)

  const EMPTY := State(map[], [])

  /** The number in the last bracket opened, blanks and one star before it allowed; otherwise empty. */
  function GetIdx(bracket: string): (idx: string)
    ensures AllDigits(idx)
  {
    var inner := Trimmed(LastPart(bracket, '['));
    var digits := if inner != "" && inner[0] == '*' then TrimLeft(inner[1..]) else inner;
    if AllDigits(digits) then digits else ""
  }

  predicate IsSumLine(idx: string) {
    Contains(UpperText(idx), "SUM")
  }

  /** Whether a line passes the interval filter. */
  predicate Accepted(c: Settings, l: Line) {
    !c.ignoreWrongInterval || l.matches || l.avg || l.special
  }

  function RecordOf(c: Settings, l: Line): Record {
    Record(l.key, GetIdx(l.bracket) + c.tag, l.avg, l.value, l.lost, l.total, l.dir)
  }

  /** The conversion of a real to an integer drops the fraction. */
  function Truncated(x: real): int {
    if x >= 0.0 then x.Floor else -(-x).Floor
  }

  /** The emitted time of an interval such as 3.00-4.00: its end in whole seconds, shifted. */
  function EndTime(c: Settings, key: string): int {
    Truncated(c.number(LastPart(key, '-'))) + c.delay + c.offset
  }

  /** The effect of one line; the later tests for a sum line in the source come after this one returned. */
  function Step(c: Settings, s: State, l: Line): State {
    if !Accepted(c, l) || IsSumLine(GetIdx(l.bracket)) then s else
      var key := l.key;
      var stored := if key in s.pending then s.pending[key] else [];
      var now := if |stored| < c.parallel then stored + [RecordOf(c, l)] else stored;
      if |now| == c.parallel then State(s.pending - {key}, s.sent + [Batch(EndTime(c, key), now)])
      else State(s.pending[key := now], s.sent)
  }

  function Run(c: Settings, lines: seq<Line>): State {
    if lines == [] then EMPTY else Step(c, Run(c, lines[..|lines| - 1]), lines[|lines| - 1])
  }

  class Parser {
    var tpdatas: map<string, seq<Record>>
    var sent: seq<Batch>
    const settings: Settings

    ghost function Abs(): State
      reads this
    {
      State(tpdatas, sent)
    }

    constructor (settings: Settings)
      ensures Abs() == EMPTY && this.settings == settings
    {
      tpdatas, sent := map[], [];
      this.settings := settings;
    }

    method ParseLine(l: Line)
      modifies this
      ensures Abs() == Step(settings, old(Abs()), l)
    {
      var idx := GetIdx(l.bracket);
      if settings.ignoreWrongInterval && !l.matches && !l.avg {
        if !l.special {
          return;
        }
      }
      if IsSumLine(idx) {
        return;
      }
      var key := l.key;
      if key !in tpdatas {
        tpdatas := tpdatas[key := []];
      }
      if |tpdatas[key]| < settings.parallel {
        var record := Record(key, idx + settings.tag, l.avg, l.value, l.lost, l.total, l.dir);
        tpdatas := tpdatas[key := tpdatas[key] + [record]];
      }
      if |tpdatas[key]| == settings.parallel {
        var arr := tpdatas[key];
        tpdatas := tpdatas - {key};
        sent := sent + [Batch(EndTime(settings, key), arr)];
      }
    }

    method ParseLog(lines: seq<Line>)
      requires Abs() == EMPTY
      modifies this
      ensures Abs() == Run(settings, lines)
    {
      for i := 0 to |lines|
        invariant Abs() == Run(settings, lines[..i])
      {
        ParseLine(lines[i]);
        assert lines[..i + 1][..i] == lines[..i];
      }
      assert lines[..|lines|] == lines;
    }
  }

  // ----- the index of a line

  lemma SumHasALetter(text: string) returns (x: char)
    requires IsSumLine(text)
    ensures x in text && (x == 'S' || x == 's')
  {
    ContainsIff(UpperText(text), "SUM");
    var i: nat :| OccursAt(UpperText(text), "SUM", i);
    assert UpperText(text)[i] == UpperText(text)[i..i + |"SUM"|][0] == 'S';
    x := text[i];
  }

  /** No line is ever recognised as a sum line: the index is a number or empty. */
  lemma SumNeverRecognised(bracket: string)
    ensures !IsSumLine(GetIdx(bracket))
  {
    if IsSumLine(GetIdx(bracket)) {
      var x := SumHasALetter(GetIdx(bracket));
      assert false;
    }
  }

  lemma IndexOfLastBracket(pre: string, inner: string)
    requires '[' !in inner && (pre == "" || pre[|pre| - 1] == '[')
    ensures LastPart(pre + inner, '[') == inner
  {
    LastPartStep(inner, '[');
    if pre == "" {
      assert pre + inner == inner;
    } else {
      LastPartOf(pre[..|pre| - 1], '[', inner);
      assert pre[..|pre| - 1] + ['['] == pre;
    }
  }

  /** A bracket with a number in it: the text to its last opening, blanks, a star or none, and the digits. */
  datatype Index = Index(pre: string, front: string, star: string, middle: string, digits: string, back: string) {
    predicate WellFormed() {
      && (pre == "" || pre[|pre| - 1] == '[')
      && Blank(front) && Blank(middle) && Blank(back)
      && (star == "*" || (star == "" && middle == ""))
      && AllDigits(digits) && digits != ""
    }

    function Inner(): string {
      front + star + middle + digits + back
    }
  }

  lemma NoBracketInside(x: Index)
    requires x.WellFormed()
    ensures '[' !in x.Inner()
  {
  }

  lemma TrimmedInner(x: Index)
    requires x.WellFormed()
    ensures Trimmed(x.Inner()) == x.star + x.middle + x.digits
  {
    var core := x.star + x.middle + x.digits;
    assert x.Inner() == x.front + core + x.back;
    assert core[|core| - 1] == x.digits[|x.digits| - 1];
    assert x.star == "" ==> core == x.digits;
    hide Trimmed;
    TrimsBlanks(x.front, core, x.back);
  }

  /** A number between blanks, starred or not, is read as it stands. */
  lemma IndexIsRead(x: Index)
    requires x.WellFormed()
    ensures GetIdx(x.pre + x.Inner()) == x.digits
  {
    hide Trimmed, TrimLeft, LastPart;
    var core := x.star + x.middle + x.digits;
    assert x.star == "" ==> core == x.digits;
    assert x.star != "" ==> core[1..] == x.middle + x.digits;
    NoBracketInside(x);
    IndexOfLastBracket(x.pre, x.Inner());
    TrimmedInner(x);
    TrimLeftOfBlanks(x.middle, x.digits);
  }

  lemma Assembled(x: Index, inner: string)
    requires inner == x.star + x.middle + x.digits
    ensures x.Inner() == x.front + inner + x.back
  {
  }

  lemma StarCuts(inner: string) returns (star: string, middle: string)
    requires inner != ""
    ensures Blank(middle) && (star == "*" || (star == "" && middle == ""))
    ensures inner == star + middle + if inner[0] == '*' then TrimLeft(inner[1..]) else inner
  {
    hide TrimLeft;
    star, middle := "", "";
    if inner[0] == '*' {
      star := "*";
      middle := TrimLeftCuts(inner[1..]);
      assert inner == "*" + inner[1..];
    }
  }

  /** Only such a bracket gives an index. */
  lemma OnlyNumbersAreIndices(bracket: string)
    requires GetIdx(bracket) != ""
    ensures exists x: Index :: x.WellFormed() && bracket == x.pre + x.Inner()
  {
    hide Trimmed, TrimLeft, Blank, AllDigits, LastPart;
    var pre := LastPartCuts(bracket, '[');
    var front, back := TrimmedCuts(LastPart(bracket, '['));
    var inner := Trimmed(LastPart(bracket, '['));
    var star, middle := StarCuts(inner);
    var x := Index(pre, front, star, middle, GetIdx(bracket), back);
    Assembled(x, inner);
    assert x.WellFormed();
  }

  /** What a bracket that names the sum, such as [SUM], gives as index: nothing. */
  lemma SumHasNoIndex(bracket: string)
    requires IsSumLine(bracket) && '[' !in bracket
    ensures GetIdx(bracket) == ""
  {
    var x := SumHasALetter(bracket);
    LastPartStep(bracket, '[');
    var inner := Trimmed(bracket);
    TrimmedKeepsOthers(bracket, x);
    if inner[0] == '*' {
      assert x in inner[1..];
      LeftKeepsOthers(inner[1..], x);
    }
  }

  // ----- the simple specification: each key's arrivals, cut into blocks

  function Arrivals(c: Settings, lines: seq<Line>, key: string): seq<Record> {
    if lines == [] then [] else
      var l := lines[|lines| - 1];
      Arrivals(c, lines[..|lines| - 1], key) + if Accepted(c, l) && l.key == key then [RecordOf(c, l)] else []
  }

  function Blocks(a: seq<Record>, p: nat): (b: seq<seq<Record>>)
    requires p > 0
    ensures forall i :: 0 <= i < |b| ==> |b[i]| == p
  {
    if |a| < p then [] else [a[..p]] + Blocks(a[p..], p)
  }

  function Remainder(a: seq<Record>, p: nat): (r: seq<Record>)
    requires p > 0
    ensures |r| < p
  {
    if |a| < p then a else Remainder(a[p..], p)
  }

  function Flatten(b: seq<seq<Record>>): seq<Record> {
    if b == [] then [] else b[0] + Flatten(b[1..])
  }

  lemma CoverStep(a: seq<Record>, x: seq<Record>, y: seq<Record>, z: seq<Record>)
    requires x <= a && y + z == a[|x|..]
    ensures (x + y) + z == a
  {
  }

  lemma {:induction false} BlocksCover(a: seq<Record>, p: nat)
    requires p > 0
    ensures Flatten(Blocks(a, p)) + Remainder(a, p) == a
  {
    if |a| >= p {
      BlocksCover(a[p..], p);
      CoverStep(a, a[..p], Flatten(Blocks(a[p..], p)), Remainder(a[p..], p));
    } else {
      assert [] + a == a;
    }
  }

  /** One more arrival either completes a block or joins the remainder. */
  lemma {:induction false} BlocksAppend(a: seq<Record>, p: nat, r: Record)
    requires p > 0
    ensures var last := Remainder(a, p) + [r];
      if |last| == p then Blocks(a + [r], p) == Blocks(a, p) + [last] && Remainder(a + [r], p) == []
      else Blocks(a + [r], p) == Blocks(a, p) && Remainder(a + [r], p) == last
    decreases |a|
  {
    if |a| < p {
      if |a| + 1 == p {
        assert (a + [r])[..p] == a + [r] && (a + [r])[p..] == [];
      }
    } else {
      BlocksAppend(a[p..], p, r);
      assert (a + [r])[..p] == a[..p] && (a + [r])[p..] == a[p..] + [r];
    }
  }

  /** The batches of one key, in the order they were sent. */
  function BatchesOf(sent: seq<Batch>, key: string): seq<seq<Record>> {
    if sent == [] then [] else
      var b := sent[|sent| - 1].records;
      BatchesOf(sent[..|sent| - 1], key) + if b != [] && b[0].key == key then [b] else []
  }

  function PendingOf(s: State, key: string): seq<Record> {
    if key in s.pending then s.pending[key] else []
  }

  /** One record per parallel stream, all of one interval and sent under that interval's time. */
  ghost predicate FullBatch(c: Settings, b: Batch) {
    && |b.records| == c.parallel
    && forall i :: 0 <= i < |b.records| ==>
      b.records[i].key == b.records[0].key && b.time == EndTime(c, b.records[i].key)
  }

  /** What is pending under a key carries that key and is never empty nor full. */
  ghost predicate Tidy(c: Settings, s: State) {
    && (forall k :: k in s.pending ==> 0 < |s.pending[k]| < c.parallel)
    && (forall k, i :: k in s.pending && 0 <= i < |s.pending[k]| ==> s.pending[k][i].key == k)
    && (forall b :: b in s.sent ==> FullBatch(c, b))
  }

  lemma FirstKey(c: Settings, s: State, l: Line)
    requires Tidy(c, s)
    ensures (PendingOf(s, l.key) + [RecordOf(c, l)])[0].key == l.key
    ensures |PendingOf(s, l.key)| < c.parallel || c.parallel <= 0
  {
  }

  lemma TidyStep(c: Settings, s: State, l: Line)
    requires c.parallel >= 1 && Tidy(c, s)
    ensures Tidy(c, Step(c, s, l))
  {
    hide GetIdx, IsSumLine;
    FirstKey(c, s, l);
    if Accepted(c, l) && !IsSumLine(GetIdx(l.bracket)) {
      var key := l.key;
      var now := PendingOf(s, key) + [RecordOf(c, l)];
      assert forall i :: 0 <= i < |now| ==> now[i].key == key;
      if |now| == c.parallel {
        assert FullBatch(c, Batch(EndTime(c, key), now));
      }
    }
  }

  lemma {:induction false} RunTidy(c: Settings, lines: seq<Line>)
    requires c.parallel >= 1
    ensures Tidy(c, Run(c, lines))
  {
    if lines == [] {
    } else {
      RunTidy(c, lines[..|lines| - 1]);
      TidyStep(c, Run(c, lines[..|lines| - 1]), lines[|lines| - 1]);
    }
  }

  lemma BatchesOfSend(sent: seq<Batch>, b: Batch, key: string)
    ensures BatchesOf(sent + [b], key) ==
      BatchesOf(sent, key) + if b.records != [] && b.records[0].key == key then [b.records] else []
  {
  }

  lemma NoBlocks(b: seq<seq<Record>>)
    ensures b + [] == b
  {
  }

  /** How an accepted line moves one key's batches and pending records. */
  lemma StepOnKey(c: Settings, s: State, l: Line, key: string)
    requires c.parallel >= 1 && Tidy(c, s)
    ensures var t := Step(c, s, l); var now := PendingOf(s, key) + [RecordOf(c, l)];
      if Accepted(c, l) && l.key == key then
        if |now| == c.parallel then
          BatchesOf(t.sent, key) == BatchesOf(s.sent, key) + [now] && PendingOf(t, key) == []
        else
          BatchesOf(t.sent, key) == BatchesOf(s.sent, key) && PendingOf(t, key) == now
      else BatchesOf(t.sent, key) == BatchesOf(s.sent, key) && PendingOf(t, key) == PendingOf(s, key)
  {
    var now := PendingOf(s, l.key) + [RecordOf(c, l)];
    var b := Batch(EndTime(c, l.key), now);
    NoBlocks(BatchesOf(s.sent, key));
    BatchesOfSend(s.sent, b, key);
    FirstKey(c, s, l);
    SumNeverRecognised(l.bracket);
    hide BatchesOf, Tidy, FullBatch, GetIdx, IsSumLine;
  }

  lemma ArrivalsStep(c: Settings, lines: seq<Line>, key: string)
    requires lines != []
    ensures var l := lines[|lines| - 1]; var a := Arrivals(c, lines[..|lines| - 1], key);
      Arrivals(c, lines, key) == if Accepted(c, l) && l.key == key then a + [RecordOf(c, l)] else a
  {
  }

  /**
   For any interleaving of intervals the batches sent for a key are that key's arrivals cut into
   blocks of exactly `parallel`, and what is left over is still pending.
   */
  lemma {:induction false} BatchesAreBlocks(c: Settings, lines: seq<Line>, key: string)
    requires c.parallel >= 1
    ensures var s := Run(c, lines); var a := Arrivals(c, lines, key);
      BatchesOf(s.sent, key) == Blocks(a, c.parallel) && PendingOf(s, key) == Remainder(a, c.parallel)
  {
    if lines == [] {
    } else {
      hide Step, Accepted, Blocks, Remainder, BatchesOf, PendingOf, Tidy;
      var before, l := lines[..|lines| - 1], lines[|lines| - 1];
      BatchesAreBlocks(c, before, key);
      RunTidy(c, before);
      StepOnKey(c, Run(c, before), l, key);
      ArrivalsStep(c, lines, key);
      BlocksAppend(Arrivals(c, before, key), c.parallel, RecordOf(c, l));
    }
  }

  /** The number of full blocks and the leftover account for every arrival. */
  lemma {:induction false} BlocksSize(a: seq<Record>, p: nat)
    requires p > 0
    ensures |Blocks(a, p)| * p + |Remainder(a, p)| == |a|
  {
    if |a| >= p {
      BlocksSize(a[p..], p);
      var n := |Blocks(a[p..], p)|;
      assert (n + 1) * p == n * p + p;
    }
  }

  /** Full batches times streams, plus what is pending, is the number of a key's accepted lines. */
  lemma KeyCount(c: Settings, lines: seq<Line>, key: string)
    requires c.parallel >= 1
    ensures |BatchesOf(Run(c, lines).sent, key)| * c.parallel + |PendingOf(Run(c, lines), key)|
      == |Arrivals(c, lines, key)|
  {
    BatchesAreBlocks(c, lines, key);
    BlocksSize(Arrivals(c, lines, key), c.parallel);
  }

  ghost predicate Empty(s: State) {
    (forall k :: k in s.pending ==> s.pending[k] == []) && forall b :: b in s.sent ==> b.records == []
  }

  lemma {:induction false} KeepsNothing(c: Settings, lines: seq<Line>)
    requires c.parallel <= 0
    ensures Empty(Run(c, lines))
  {
    if lines == [] {
    } else {
      KeepsNothing(c, lines[..|lines| - 1]);
    }
  }

  lemma {:induction false} EmptyBatches(sent: seq<Batch>, key: string)
    requires forall b :: b in sent ==> b.records == []
    ensures BatchesOf(sent, key) == []
  {
    if sent == [] {
    } else {
      EmptyBatches(sent[..|sent| - 1], key);
    }
  }

  lemma {:induction false} NoArrivals(c: Settings, lines: seq<Line>, key: string)
    requires forall l :: l in lines ==> !Accepted(c, l)
    ensures Arrivals(c, lines, key) == []
  {
    if lines == [] {
    } else {
      NoArrivals(c, lines[..|lines| - 1], key);
    }
  }

  lemma {:induction false} ArrivalCounts(c: Settings, lines: seq<Line>, l: Line)
    requires l in lines && Accepted(c, l)
    ensures RecordOf(c, l) in Arrivals(c, lines, l.key)
  {
    if l in lines[..|lines| - 1] {
      ArrivalCounts(c, lines[..|lines| - 1], l);
    }
  }

  /** Nothing is lost, repeated or moved to another interval, exactly when `parallel` is positive. */
  lemma NothingLostIff(c: Settings, lines: seq<Line>)
    ensures (forall key ::
               Flatten(BatchesOf(Run(c, lines).sent, key)) + PendingOf(Run(c, lines), key) == Arrivals(c, lines, key))
      <==> c.parallel >= 1 || forall l :: l in lines ==> !Accepted(c, l)
  {
    if c.parallel >= 1 {
      forall key ensures
        Flatten(BatchesOf(Run(c, lines).sent, key)) + PendingOf(Run(c, lines), key) == Arrivals(c, lines, key)
      {
        BatchesAreBlocks(c, lines, key);
        BlocksCover(Arrivals(c, lines, key), c.parallel);
      }
    } else {
      KeepsNothing(c, lines);
      forall key ensures PendingOf(Run(c, lines), key) == [] && BatchesOf(Run(c, lines).sent, key) == [] {
        EmptyBatches(Run(c, lines).sent, key);
      }
      forall key | forall l :: l in lines ==> !Accepted(c, l) ensures Arrivals(c, lines, key) == [] {
        NoArrivals(c, lines, key);
      }
      if l :| l in lines && Accepted(c, l) {
        ArrivalCounts(c, lines, l);
      }
    }
  }

  /**
   A line beyond a whole number of blocks is left behind.  A [SUM] line has an empty index, so it
   is not recognised as one and is such a line after every interval of two or more streams.
   */
  lemma ExtraLineStaysPending(c: Settings, lines: seq<Line>, l: Line)
    requires c.parallel >= 2 && Accepted(c, l)
    requires Remainder(Arrivals(c, lines, l.key), c.parallel) == []
    ensures PendingOf(Run(c, lines + [l]), l.key) == [RecordOf(c, l)]
    ensures BatchesOf(Run(c, lines + [l]).sent, l.key) == BatchesOf(Run(c, lines).sent, l.key)
  {
    var key := l.key;
    assert (lines + [l])[..|lines|] == lines;
    BatchesAreBlocks(c, lines, key);
    BatchesAreBlocks(c, lines + [l], key);
    BlocksAppend(Arrivals(c, lines, key), c.parallel, RecordOf(c, l));
  }

  // ----- what is kept of a line

  lemma LongerOrSent(c: Settings, s: State, l: Line)
    requires c.parallel >= 1 && |PendingOf(s, l.key)| < c.parallel
    requires Accepted(c, l) && !IsSumLine(GetIdx(l.bracket))
    ensures |Step(c, s, l).sent| > |s.sent| || |PendingOf(Step(c, s, l), l.key)| > |PendingOf(s, l.key)|
  {
  }

  /** A line leaves everything as it was exactly when the interval filter drops it, or nothing is ever kept. */
  lemma LineIgnoredIff(c: Settings, lines: seq<Line>, l: Line)
    ensures Run(c, lines + [l]) == Run(c, lines) <==>
      (c.ignoreWrongInterval && !l.matches && !l.avg && !l.special)
      || (c.parallel < 0 && l.key in Run(c, lines).pending)
  {
    hide GetIdx, IsSumLine;
    var s := Run(c, lines);
    assert (lines + [l])[..|lines|] == lines;
    SumNeverRecognised(l.bracket);
    if c.parallel >= 1 {
      RunTidy(c, lines);
      FirstKey(c, s, l);
      if Accepted(c, l) {
        LongerOrSent(c, s, l);
      }
    } else {
      KeepsNothing(c, lines);
    }
  }

  /** The lines of one interval that the filter lets pass. */
  ghost function LinesOf(c: Settings, lines: seq<Line>, key: string): seq<Line> {
    if lines == [] then [] else
      var l := lines[|lines| - 1];
      var kept := l.key == key && !(c.ignoreWrongInterval && !l.matches && !l.avg && !l.special);
      LinesOf(c, lines[..|lines| - 1], key) + if kept then [l] else []
  }

  ghost predicate HoldsLine(c: Settings, r: Record, l: Line) {
    && r.key == l.key && r.idx == GetIdx(l.bracket) + c.tag && r.avg == l.avg
    && r.value == l.value && r.lost == l.lost && r.total == l.total && r.dir == l.dir
  }

  lemma {:induction false} ArrivalsHoldLines(c: Settings, lines: seq<Line>, key: string)
    ensures var kept := LinesOf(c, lines, key); var a := Arrivals(c, lines, key);
      |a| == |kept| && forall i :: 0 <= i < |a| ==> HoldsLine(c, a[i], kept[i])
  {
    if lines == [] {
    } else {
      hide GetIdx;
      ArrivalsHoldLines(c, lines[..|lines| - 1], key);
    }
  }

  /** Batches and pending records of an interval hold, one by one, what its lines say, in their order. */
  lemma RecordsHoldLines(c: Settings, lines: seq<Line>, key: string)
    requires c.parallel >= 1
    ensures var kept := LinesOf(c, lines, key);
      var records := Flatten(BatchesOf(Run(c, lines).sent, key)) + PendingOf(Run(c, lines), key);
      |records| == |kept| && forall i :: 0 <= i < |records| ==> HoldsLine(c, records[i], kept[i])
  {
    ArrivalsHoldLines(c, lines, key);
    BatchesAreBlocks(c, lines, key);
    BlocksCover(Arrivals(c, lines, key), c.parallel);
  }

  /** The emitted time of an interval written with a dash: the whole part of its end, shifted. */
  lemma EndTimeIs(c: Settings, start: string, end: string)
    requires '-' !in end
    ensures var t := EndTime(c, start + "-" + end) - c.delay - c.offset; var x := c.number(end);
      if x >= 0.0 then t as real <= x < (t + 1) as real else (t - 1) as real < x <= t as real
  {
    LastPartOf(start, '-', end);
  }

  // ----- counting over all intervals

  function RecordTotal(batches: seq<Batch>): nat {
    if batches == [] then 0 else
      RecordTotal(batches[..|batches| - 1]) + |batches[|batches| - 1].records|
  }

  ghost function PendingTotal(pending: map<string, seq<Record>>): nat {
    if pending == map[] then 0 else
      var k :| k in pending;
      |pending[k]| + PendingTotal(pending - {k})
  }

  function AcceptedCount(c: Settings, lines: seq<Line>): nat {
    if lines == [] then 0 else
      AcceptedCount(c, lines[..|lines| - 1]) + if Accepted(c, lines[|lines| - 1]) then 1 else 0
  }

  /** Any key may be counted first. */
  lemma {:induction false} PendingTotalWithout(pending: map<string, seq<Record>>, key: string)
    requires key in pending
    ensures PendingTotal(pending) == |pending[key]| + PendingTotal(pending - {key})
    decreases |pending|
  {
    var k :| k in pending && PendingTotal(pending) == |pending[k]| + PendingTotal(pending - {k});
    if k == key {
    } else {
      PendingTotalWithout(pending - {k}, key);
      PendingTotalWithout(pending - {key}, k);
      assert (pending - {k}) - {key} == (pending - {key}) - {k};
    }
  }

  lemma PendingTotalReplaced(pending: map<string, seq<Record>>, key: string, value: seq<Record>)
    ensures PendingTotal(pending[key := value]) == |value| + PendingTotal(pending - {key})
  {
    PendingTotalWithout(pending[key := value], key);
    assert pending[key := value] - {key} == pending - {key};
  }

  lemma PendingTotalSplit(s: State, key: string)
    ensures PendingTotal(s.pending) == |PendingOf(s, key)| + PendingTotal(s.pending - {key})
  {
    if key in s.pending {
      PendingTotalWithout(s.pending, key);
    } else {
      assert s.pending - {key} == s.pending;
    }
  }

  lemma StepTotal(c: Settings, s: State, l: Line)
    requires c.parallel >= 1 && Tidy(c, s)
    ensures var t := Step(c, s, l);
      RecordTotal(t.sent) + PendingTotal(t.pending)
      == RecordTotal(s.sent) + PendingTotal(s.pending) + if Accepted(c, l) then 1 else 0
  {
    hide GetIdx, IsSumLine, Tidy, PendingTotal;
    SumNeverRecognised(l.bracket);
    FirstKey(c, s, l);
    var now := PendingOf(s, l.key) + [RecordOf(c, l)];
    PendingTotalSplit(s, l.key);
    PendingTotalReplaced(s.pending, l.key, now);
    var b := Batch(EndTime(c, l.key), now);
    assert (s.sent + [b])[..|s.sent|] == s.sent;
    assert RecordTotal(s.sent + [b]) == RecordTotal(s.sent) + |now|;
  }

  lemma {:induction false} RunTotal(c: Settings, lines: seq<Line>)
    requires c.parallel >= 1
    ensures RecordTotal(Run(c, lines).sent) + PendingTotal(Run(c, lines).pending) == AcceptedCount(c, lines)
  {
    if lines == [] {
    } else {
      var before := lines[..|lines| - 1];
      RunTotal(c, before);
      RunTidy(c, before);
      StepTotal(c, Run(c, before), lines[|lines| - 1]);
    }
  }

  lemma {:induction false} NothingPending(pending: map<string, seq<Record>>)
    requires forall k :: k in pending ==> pending[k] == []
    ensures PendingTotal(pending) == 0
    decreases |pending|
  {
    if pending == map[] {
    } else {
      var k :| k in pending && PendingTotal(pending) == |pending[k]| + PendingTotal(pending - {k});
      NothingPending(pending - {k});
    }
  }

  lemma {:induction false} NothingSent(batches: seq<Batch>)
    requires forall b :: b in batches ==> b.records == []
    ensures RecordTotal(batches) == 0
  {
    if batches == [] {
    } else {
      NothingSent(batches[..|batches| - 1]);
    }
  }

  /** Sent and pending records together are the accepted lines, exactly when no line is lost. */
  lemma RecordsCountedIff(c: Settings, lines: seq<Line>)
    ensures RecordTotal(Run(c, lines).sent) + PendingTotal(Run(c, lines).pending) == AcceptedCount(c, lines)
      <==> c.parallel >= 1 || AcceptedCount(c, lines) == 0
  {
    if c.parallel >= 1 {
      RunTotal(c, lines);
    } else {
      KeepsNothing(c, lines);
      NothingPending(Run(c, lines).pending);
      NothingSent(Run(c, lines).sent);
    }
  }
}
