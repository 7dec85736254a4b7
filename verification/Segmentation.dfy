/** How TCP cuts the stream does not matter to the receiver, and framed files arrive as sent. */
module Segmentation {
  import opened DrainOutcome
  import opened FrameHeader
  import opened FileSaveSocket
  import opened Options
  import opened Text

  // ----- more bytes

  lemma NewlineAppend(s: string, more: string)
    ensures Newline(s) < |s| ==> Newline(s + more) == Newline(s)
    ensures Newline(s) == |s| ==> Newline(s + more) == |s| + Newline(more)
  {
    if s == "" {
      assert s + more == more;
    } else if s[0] != '\n' {
      NewlineAppend(s[1..], more);
      assert (s + more)[1..] == s[1..] + more;
    }
  }

  lemma ReadHeaderAppend(open: Opener, s: State, more: string)
    requires s.local.None? && Newline(s.buffer) < |s.buffer|
    ensures Newline(Append(s, more).buffer) < |Append(s, more).buffer|
    ensures var h := ReadHeader(open, s);
      ReadHeader(open, Append(s, more)) == h.(state := Append(h.state, more))
  {
    NewlineAppend(s.buffer, more);
    var k := Newline(s.buffer);
    hide Newline, ParseHeader;
    assert (s.buffer + more)[..k + 1] == s.buffer[..k + 1];
    assert (s.buffer + more)[k + 1..] == s.buffer[k + 1..] + more;
  }

  /** The body fits into the buffer (or never ends): the extra bytes stay unread. */
  lemma ReadBodyAppend(s: State, more: string)
    requires BodyReadable(s) && s.fileSize - s.received <= |s.buffer|
    ensures ReadBody(Append(s, more)) == Append(ReadBody(s), more)
  {
    var want := s.fileSize - s.received;
    var n := if want < 0 then 0 else want;
    assert (s.buffer + more)[..n] == s.buffer[..n];
    assert (s.buffer + more)[n..] == s.buffer[n..] + more;
  }

  lemma SplitAcross(s: string, more: string, n: nat)
    requires |s| <= n <= |s + more|
    ensures (s + more)[..n] == s + more[..n - |s|]
    ensures (s + more)[n..] == more[n - |s|..]
  {
  }

  lemma MoveInTwo(s: State, more: string, m: nat)
    requires s.local.Some? && m <= |more|
    ensures Move(Append(s, more), |s.buffer| + m) == Move(Append(Move(s, |s.buffer|), more), m)
  {
    var b, c := s.buffer, s.local.value.content;
    SplitAcross(b, more, |b| + m);
    assert b[..|b|] == b && b[|b|..] == "" && "" + more == more;
    assert c + (b + more[..m]) == (c + b) + more[..m];
  }

  /** The body is longer than the buffer: reading the rest later comes to the same. */
  lemma ReadBodyInTwo(s: State, more: string)
    requires BodyReadable(s) && s.fileSize - s.received > |s.buffer|
    ensures ReadBody(s) == Move(s, |s.buffer|)
    ensures ReadBody(s).buffer == "" && Consistent(ReadBody(s)) && ReadBody(s).local.Some?
    ensures ReadBody(s).fileSize == s.fileSize
    ensures ReadBody(Append(s, more)) == ReadBody(Append(ReadBody(s), more))
  {
    var t := Move(s, |s.buffer|);
    assert Amount(s) == |s.buffer| && t.buffer == "" && t.received == s.received + |s.buffer|;
    var m := Amount(Append(t, more));
    assert Append(t, more).buffer == more;
    assert Amount(Append(s, more)) == |s.buffer| + m;
    MoveInTwo(s, more, m);
    hide Move, Amount, Append;
  }

  /** What draining does with further bytes, given what it did without them. */
  ghost predicate AppendCommutes(open: Opener, s: State, more: string)
    requires Consistent(s)
  {
    var r := Drain(open, s);
    if r.stop.OpenFailed? then Drain(open, Append(s, more)) == r.(state := Append(r.state, more))
    else Drain(open, Append(s, more)) == Drain(open, Append(r.state, more))
  }

  lemma BodyThenDrain(open: Opener, s: State, more: string)
    requires BodyReadable(s) && AppendCommutes(open, ReadBody(s), more)
    ensures var r := Drain(open, ReadBody(s));
      if r.stop.OpenFailed? then Drain(open, ReadBody(Append(s, more))) == r.(state := Append(r.state, more))
      else Drain(open, ReadBody(Append(s, more))) == Drain(open, Append(r.state, more))
  {
    hide ReadHeader, ReadBody;
    if s.fileSize - s.received <= |s.buffer| {
      ReadBodyAppend(s, more);
    } else {
      ReadBodyInTwo(s, more);
      var t := ReadBody(s);
      assert Drain(open, t) == Outcome(t, Drained);
      if more == "" {
        assert Append(s, more) == s && Append(t, more) == t;
      } else {
        assert Drain(open, Append(t, more)) == Drain(open, ReadBody(Append(t, more)));
      }
    }
  }

  lemma {:induction false} DrainAppend(open: Opener, s: State, more: string)
    requires Consistent(s)
    ensures AppendCommutes(open, s, more)
    decreases |s.buffer|
  {
    hide ReadHeader, ReadBody;
    if s.buffer == "" || (s.local.None? && Newline(s.buffer) == |s.buffer|) {
      assert Drain(open, s).state == s;
    } else if s.local.None? {
      ReadHeaderAppend(open, s, more);
      var h := ReadHeader(open, s);
      if !h.stop.OpenFailed? {
        if h.state.local.Some? {
          DrainAppend(open, ReadBody(h.state), more);
          BodyThenDrain(open, h.state, more);
        } else {
          DrainAppend(open, h.state, more);
        }
      }
    } else if s.fileSize >= 0 {
      DrainAppend(open, ReadBody(s), more);
      BodyThenDrain(open, s, more);
    }
  }

  // ----- segmentation does not matter

  /** A failed open leaves no file open; any other stop leaves nothing more to do. */
  lemma {:induction false} StopsForGood(open: Opener, s: State)
    requires Consistent(s)
    ensures var r := Drain(open, s);
      if r.stop.OpenFailed? then r.state.local.None? else Drain(open, r.state) == r
    decreases |s.buffer|
  {
    hide ReadBody;
    if s.buffer != "" && s.local.None? && Newline(s.buffer) < |s.buffer| {
      var h := ReadHeader(open, s);
      if !h.stop.OpenFailed? {
        StopsForGood(open, if h.state.local.Some? then ReadBody(h.state) else h.state);
      }
    } else if s.buffer != "" && s.local.Some? && s.fileSize >= 0 {
      StopsForGood(open, ReadBody(s));
    }
  }

  lemma LineIsConsumed(open: Opener, s: State)
    requires Consistent(s) && s.local.None?
    ensures Drain(open, s).state == s <==> Newline(s.buffer) == |s.buffer|
  {
  }

  lemma AppendTwice(s: State, a: string, b: string)
    ensures Append(Append(s, a), b) == Append(s, a + b)
  {
  }

  /**
   Feeding a then b ends in the same state as feeding a + b, except in one case: while a was read
   a name was refused and a full line is left unread after it.  The loop then returns early, so
   that line is read only because another segment happened to arrive.
   */
  lemma FeedingInTwo(open: Opener, s: State, a: string, b: string)
    requires Consistent(s)
    ensures var held := HeldBack(open, Append(s, a));
      Feed(open, Feed(open, s, a).state, b).state == Feed(open, s, a + b).state
      <==> held.None? || Newline(held.value + b) == |held.value + b|
  {
    var first := Feed(open, s, a);
    RefusalStops(open, Append(s, a));
    AppendTwice(s, a, b);
    DrainAppend(open, Append(s, a), b);
    StopsForGood(open, Append(s, a));
    if first.stop.OpenFailed? {
      LineIsConsumed(open, Append(first.state, b));
    }
  }

  function Flatten(segments: seq<string>): string {
    if segments == [] then "" else segments[0] + Flatten(segments[1..])
  }

  function FeedAll(open: Opener, s: State, segments: seq<string>): (r: State)
    requires Consistent(s)
    ensures Consistent(r)
    decreases |segments|
  {
    if segments == [] then s else FeedAll(open, Feed(open, s, segments[0]).state, segments[1..])
  }

  /** Nothing more to do until bytes arrive, as at the start and after every feed that ran to its end. */
  ghost predicate Quiet(open: Opener, s: State) {
    Consistent(s) && Drain(open, s).state == s
  }

  lemma QuietIsNoRefusal(open: Opener, s: State)
    requires Quiet(open, s)
    ensures !Drain(open, s).stop.OpenFailed?
  {
    if Drain(open, s).stop.OpenFailed? {
      RefusalConsumes(open, s);
    }
  }

  lemma NewlineBeyond(s: string, more: string)
    requires Newline(s) == |s| && Newline(s + more) < |s + more|
    ensures Newline(s + more) >= |s|
  {
    NewlineAppend(s, more);
  }

  /** A refusal consumes a line, so from a quiet state less is left than just arrived. */
  lemma RefusalLeavesLess(open: Opener, s: State, a: string)
    requires Quiet(open, s) && Feed(open, s, a).stop.OpenFailed?
    ensures |Feed(open, s, a).state.buffer| < |a|
  {
    var t := Append(s, a);
    if s.buffer == "" {
      assert t.buffer == a;
      RefusalConsumes(open, t);
    } else if s.local.None? {
      LineIsConsumed(open, s);
      NewlineBeyond(s.buffer, a);
      assert |ReadHeader(open, t).state.buffer| < |a|;
      hide ReadHeader, ReadBody;
    }
  }

  lemma {:induction false} UnreadNeverGrows(open: Opener, s: State, segments: seq<string>)
    requires Consistent(s)
    ensures |FeedAll(open, s, segments).buffer| <= |s.buffer| + |Flatten(segments)|
    decreases |segments|
  {
    if segments == [] {
    } else {
      UnreadNeverGrows(open, Feed(open, s, segments[0]).state, segments[1..]);
    }
  }

  /** With no file open, further segments change nothing but the unread bytes unless they complete a line. */
  lemma {:induction false} LinesWaitUnless(open: Opener, s: State, segments: seq<string>)
    requires Consistent(s) && s.local.None?
    ensures FeedAll(open, s, segments) == Append(s, Flatten(segments)) <==>
      segments == [] || Newline(s.buffer + Flatten(segments)) == |s.buffer + Flatten(segments)|
    decreases |segments|
  {
    if segments == [] {
      assert Append(s, "") == s;
    } else {
      var a, rest := segments[0], segments[1..];
      var t := Append(s, a);
      AppendTwice(s, a, Flatten(rest));
      assert (s.buffer + a) + Flatten(rest) == s.buffer + Flatten(segments);
      NewlineAppend(t.buffer, Flatten(rest));
      LineIsConsumed(open, t);
      if Newline(t.buffer) == |t.buffer| {
        assert Feed(open, s, a).state == t;
        LinesWaitUnless(open, t, rest);
        assert rest == [] ==> Newline(t.buffer + Flatten(rest)) == |t.buffer + Flatten(rest)| by {
          assert t.buffer + "" == t.buffer;
        }
      } else {
        DrainConsumes(open, t);
        UnreadNeverGrows(open, Feed(open, s, a).state, rest);
        assert |FeedAll(open, s, segments).buffer| < |Append(s, Flatten(segments)).buffer|;
      }
    }
  }

  /** The last segment reaches back before the refused header, or no full line waits behind it. */
  ghost predicate HarmlessCut(held: Option<string>, segments: seq<string>) {
    || held.None?
    || Newline(held.value) == |held.value|
    || (segments != [] && |held.value| < |segments[|segments| - 1]|)
  }

  lemma {:induction false} LastSegmentIsPart(segments: seq<string>)
    ensures segments != [] ==> |segments[|segments| - 1]| <= |Flatten(segments)|
  {
    if segments == [] {
    } else if |segments| == 1 {
      assert segments[1..] == [];
    } else {
      LastSegmentIsPart(segments[1..]);
      assert segments[1..][|segments| - 2] == segments[|segments| - 1];
    }
  }

  lemma CutBehindRefusal(open: Opener, s: State, segments: seq<string>)
    requires Quiet(open, s) && segments != [] && Feed(open, s, segments[0]).stop.OpenFailed?
    ensures FeedAll(open, s, segments) == Feed(open, s, Flatten(segments)).state
      <==> HarmlessCut(HeldBack(open, Append(s, Flatten(segments))), segments)
  {
    hide Drain, Newline;
    var a, rest := segments[0], segments[1..];
    var first := Feed(open, s, a);
    AppendTwice(s, a, Flatten(rest));
    DrainAppend(open, Append(s, a), Flatten(rest));
    RefusalStops(open, Append(s, Flatten(segments)));
    StopsForGood(open, Append(s, a));
    RefusalLeavesLess(open, s, a);
    LinesWaitUnless(open, first.state, rest);
    LastSegmentIsPart(rest);
    assert rest == [] ==> first.state.buffer + Flatten(rest) == first.state.buffer;
  }

  lemma UnfoldSegments(open: Opener, s: State, segments: seq<string>)
    requires Consistent(s) && segments != []
    ensures FeedAll(open, s, segments) == FeedAll(open, Feed(open, s, segments[0]).state, segments[1..])
    ensures Flatten(segments) == segments[0] + Flatten(segments[1..]) && Flatten([]) == ""
  {
  }

  /** Without the first of several segments the last one is still the same. */
  lemma SameHarm(held: Option<string>, segments: seq<string>)
    requires segments != [] && (segments[1..] == [] ==> held.None?)
    ensures HarmlessCut(held, segments) <==> HarmlessCut(held, segments[1..])
  {
  }

  lemma CutBehindQuiet(open: Opener, s: State, segments: seq<string>)
    requires Consistent(s) && segments != []
    requires var first := Feed(open, s, segments[0]); var rest := segments[1..];
      && !first.stop.OpenFailed? && Quiet(open, first.state)
      && (FeedAll(open, first.state, rest) == Feed(open, first.state, Flatten(rest)).state
          <==> HarmlessCut(HeldBack(open, Append(first.state, Flatten(rest))), rest))
    ensures FeedAll(open, s, segments) == Feed(open, s, Flatten(segments)).state
      <==> HarmlessCut(HeldBack(open, Append(s, Flatten(segments))), segments)
  {
    hide Drain, Newline, HeldBack, Announced, FeedAll, Flatten, HarmlessCut;
    var a, rest := segments[0], segments[1..];
    var first := Feed(open, s, a);
    UnfoldSegments(open, s, segments);
    AppendTwice(s, a, Flatten(rest));
    DrainAppend(open, Append(s, a), Flatten(rest));
    RefusalStops(open, Append(s, Flatten(segments)));
    RefusalStops(open, Append(first.state, Flatten(rest)));
    var held := HeldBack(open, Append(first.state, Flatten(rest)));
    assert HeldBack(open, Append(s, Flatten(segments))) == held;
    if rest == [] {
      assert Append(first.state, "") == first.state;
      QuietIsNoRefusal(open, first.state);
    }
    SameHarm(held, segments);
  }

  /**
   Cutting a stream gives the files, the partial file, the unread bytes and the number of finished
   signals that the whole stream gives at once, exactly when no announced name is refused, or no
   full line follows the first refused header, or that header ends within the last segment.
   */
  lemma {:induction false} AnySegmentation(open: Opener, s: State, segments: seq<string>)
    requires Quiet(open, s)
    ensures FeedAll(open, s, segments) == Feed(open, s, Flatten(segments)).state
      <==> HarmlessCut(HeldBack(open, Append(s, Flatten(segments))), segments)
    decreases |segments|
  {
    if segments == [] {
      RefusalStops(open, Append(s, Flatten(segments)));
      assert Append(s, "") == s;
      QuietIsNoRefusal(open, s);
    } else {
      var a, rest := segments[0], segments[1..];
      var first := Feed(open, s, a);
      AppendTwice(s, a, Flatten(rest));
      if first.stop.OpenFailed? {
        CutBehindRefusal(open, s, segments);
      } else {
        StopsForGood(open, Append(s, a));
        AnySegmentation(open, first.state, rest);
        hide Drain;
        CutBehindQuiet(open, s, segments);
      }
    }
  }

  /** When every announced name opens, segmentation does not matter at all. */
  lemma AnySegmentationWhenAllOpen(open: Opener, s: State, segments: seq<string>)
    requires Quiet(open, s)
    requires forall x :: x in Announced(Append(s, Flatten(segments))) ==> open(x.name)
    ensures FeedAll(open, s, segments) == Feed(open, s, Flatten(segments)).state
  {
    AnySegmentation(open, s, segments);
    RefusalStops(open, Append(s, Flatten(segments)));
  }

  // ----- two cuttings

  /** Draining again and again, as repeated signals without further bytes would. */
  ghost function DrainTimes(open: Opener, s: State, m: nat): (r: State)
    requires Consistent(s)
    ensures Consistent(r)
    decreases m
  {
    if m == 0 then s else DrainTimes(open, Drain(open, s).state, m - 1)
  }

  lemma {:induction false} DrainTimesSplits(open: Opener, s: State, i: nat, j: nat)
    requires Consistent(s)
    ensures DrainTimes(open, s, i + j) == DrainTimes(open, DrainTimes(open, s, i), j)
    decreases i
  {
    hide Drain;
    if i == 0 {
    } else {
      var next := Drain(open, s).state;
      assert i + j - 1 == (i - 1) + j;
      assert DrainTimes(open, s, i + j) == DrainTimes(open, next, (i - 1) + j);
      DrainTimesSplits(open, next, i - 1, j);
    }
  }

  /** Draining consumes bytes or changes nothing. */
  lemma {:induction false} DrainTimesConsumes(open: Opener, s: State, m: nat)
    requires Consistent(s)
    ensures DrainTimes(open, s, m) == s || |DrainTimes(open, s, m).buffer| < |s.buffer|
    decreases m
  {
    if m == 0 {
    } else {
      DrainConsumes(open, s);
      DrainTimesConsumes(open, Drain(open, s).state, m - 1);
    }
  }

  /** Any cutting amounts to draining the whole stream some number of times. */
  lemma {:induction false} FeedAllIsDraining(open: Opener, s: State, segments: seq<string>) returns (m: nat)
    requires Consistent(s)
    ensures FeedAll(open, s, segments) == DrainTimes(open, Append(s, Flatten(segments)), m)
    ensures m == 0 ==> segments == []
    decreases |segments|
  {
    if segments == [] {
      assert Append(s, "") == s;
      m := 0;
    } else {
      var a, b := segments[0], Flatten(segments[1..]);
      var first := Feed(open, s, a);
      AppendTwice(s, a, b);
      DrainAppend(open, Append(s, a), b);
      m := FeedAllIsDraining(open, first.state, segments[1..]);
      if first.stop.OpenFailed? {
        m := m + 1;
      } else if m == 0 {
        assert Append(first.state, b) == first.state && a + b == a;
        m := 1;
      }
    }
  }

  /**
   Two cuttings of one stream end in the same state exactly when they leave equally many bytes
   unread: all that segmentation can change is how much of the stream still waits.
   */
  lemma SegmentationsAgree(open: Opener, s: State, xs: seq<string>, ys: seq<string>)
    requires Consistent(s) && Flatten(xs) == Flatten(ys)
    ensures FeedAll(open, s, xs) == FeedAll(open, s, ys)
      <==> |FeedAll(open, s, xs).buffer| == |FeedAll(open, s, ys).buffer|
  {
    hide Drain, FeedAll, DrainTimes, Flatten;
    var t := Append(s, Flatten(xs));
    var m := FeedAllIsDraining(open, s, xs);
    var n := FeedAllIsDraining(open, s, ys);
    if m <= n {
      DrainTimesSplits(open, t, m, n - m);
      DrainTimesConsumes(open, DrainTimes(open, t, m), n - m);
    } else {
      DrainTimesSplits(open, t, n, m - n);
      DrainTimesConsumes(open, DrainTimes(open, t, n), m - n);
    }
  }

  // ----- files arrive as they were sent

  function Frame(f: File): string {
    Header(f.name, |f.content|) + f.content
  }

  predicate Sendable(f: File) {
    CleanName(f.name) && |f.content| < INT64_LIMIT
  }

  /** What a stream is made of: framed files, and lines that are no well-formed header. */
  datatype Item = Framed(file: File) | Junk(line: string)

  function ItemText(i: Item): string {
    match i
    case Framed(f) => Frame(f)
    case Junk(line) => line + "\n"
  }

  function Stream(items: seq<Item>): string {
    if items == [] then "" else ItemText(items[0]) + Stream(items[1..])
  }

  function ItemFiles(i: Item): seq<File> {
    match i
    case Framed(f) => [f]
    case Junk(_) => []
  }

  function FilesOf(items: seq<Item>): seq<File> {
    if items == [] then [] else ItemFiles(items[0]) + FilesOf(items[1..])
  }

  ghost predicate Receivable(open: Opener, i: Item) {
    match i
    case Framed(f) => Sendable(f) && open(f.name)
    case Junk(line) => '\n' !in line && ParseHeader(line + "\n") == None
  }

  lemma WholeBody(s: State, f: File, rest: string)
    requires s.buffer == f.content + rest && s.local == Some(File(f.name, ""))
    requires s.fileSize == |f.content| && s.received == 0
    ensures ReadBody(s) == s.(buffer := rest, local := None, fileSize := 0, received := 0, saved := s.saved + [f])
  {
    assert s.buffer[..|f.content|] == f.content && s.buffer[|f.content|..] == rest;
    assert "" + f.content == f.content;
  }

  lemma OneFrame(open: Opener, s: State, f: File, rest: string)
    requires Idle(s) && Sendable(f) && open(f.name)
    ensures Drain(open, s.(buffer := Frame(f) + rest)) == Drain(open, s.(buffer := rest, saved := s.saved + [f]))
  {
    var h := Header(f.name, |f.content|);
    var t := s.(buffer := Frame(f) + rest);
    assert Frame(f) + rest == h + (f.content + rest);
    DecimalIsDigits(|f.content|);
    HeaderLine(f.name, Decimal(|f.content|), f.content + rest);
    HeaderRoundTrip(f.name, |f.content|);
    var ready := ReadHeader(open, t).state;
    assert ready == s.(buffer := f.content + rest, local := Some(File(f.name, "")),
                       fileSize := |f.content|, received := 0);
    WholeBody(ready, f, rest);
  }

  lemma OneItem(open: Opener, s: State, i: Item, rest: string)
    requires Idle(s) && Receivable(open, i)
    ensures Drain(open, s.(buffer := ItemText(i) + rest)) ==
      Drain(open, s.(buffer := rest, saved := s.saved + ItemFiles(i)))
  {
    match i
    case Framed(f) =>
      OneFrame(open, s, f, rest);
    case Junk(line) =>
      var b := (line + "\n") + rest;
      NewlineAt(b, |line|);
      assert b[..|line| + 1] == line + "\n" && b[|line| + 1..] == rest;
      assert s.saved + [] == s.saved;
  }

  lemma {:induction false} WholeStream(open: Opener, s: State, items: seq<Item>)
    requires Idle(s) && forall i :: i in items ==> Receivable(open, i)
    ensures Drain(open, s.(buffer := Stream(items))) ==
      Outcome(s.(buffer := "", saved := s.saved + FilesOf(items)), Drained)
    decreases |items|
  {
    hide ReadHeader, ReadBody, ItemText, ItemFiles, Receivable;
    if items == [] {
      assert s.saved + FilesOf(items) == s.saved;
      assert Drain(open, s.(buffer := "")) == Outcome(s.(buffer := ""), Drained);
    } else {
      var first := ItemFiles(items[0]);
      OneItem(open, s, items[0], Stream(items[1..]));
      WholeStream(open, s.(saved := s.saved + first), items[1..]);
      assert (s.saved + first) + FilesOf(items[1..]) == s.saved + FilesOf(items);
    }
  }

  lemma LoneFrame(open: Opener, f: File)
    requires Sendable(f) && open(f.name)
    ensures Feed(open, INITIAL, Frame(f)) == Outcome(INITIAL.(saved := [f]), Drained)
  {
    var items := [Framed(f)];
    assert items[1..] == [];
    assert Stream(items) == Frame(f) + "" == Frame(f) && FilesOf(items) == [f];
    WholeStream(open, INITIAL, items);
    assert Append(INITIAL, Frame(f)) == INITIAL.(buffer := Stream(items));
  }

  lemma InitialIsQuiet(open: Opener)
    ensures Consistent(INITIAL) && Idle(INITIAL) && Drain(open, INITIAL) == Outcome(INITIAL, Drained)
  {
  }

  /**
   However a stream of framed files, with other lines between them, is cut into segments, exactly
   those files arrive, in order, and nothing is left over.
   */
  lemma FilesArriveAsSent(open: Opener, items: seq<Item>, segments: seq<string>)
    requires forall i :: i in items ==> Receivable(open, i)
    requires Flatten(segments) == Stream(items)
    ensures FeedAll(open, INITIAL, segments) == INITIAL.(saved := FilesOf(items))
  {
    hide Drain, Stream, FilesOf, Flatten, FeedAll, Receivable;
    InitialIsQuiet(open);
    WholeStream(open, INITIAL, items);
    assert "" + Stream(items) == Stream(items);
    assert [] + FilesOf(items) == FilesOf(items);
    RefusalStops(open, INITIAL.(buffer := Stream(items)));
    AnySegmentation(open, INITIAL, segments);
  }

  lemma FeedTwo(open: Opener, s: State, a: string, b: string)
    requires Consistent(s)
    ensures FeedAll(open, s, [a, b]) == Feed(open, Feed(open, s, a).state, b).state
  {
    assert [a, b][1..] == [b] && [b][1..] == [];
    var t := Feed(open, s, a).state;
    assert FeedAll(open, t, [b]) == FeedAll(open, Feed(open, t, b).state, []);
  }

  lemma FailedOpenStops(open: Opener, s: State, name: string, rest: string)
    requires Idle(s) && CleanName(name) && !open(name)
    ensures Drain(open, s.(buffer := Header(name, 0) + rest)) == Outcome(s.(buffer := rest), OpenFailed)
  {
    DecimalIsDigits(0);
    HeaderLine(name, Decimal(0), rest);
    HeaderRoundTrip(name, 0);
  }

  /** The exception is real: the first name does not open, and a second frame shares its segment. */
  lemma FailedOpenDelaysTheNextFrame()
    ensures var open: Opener := name => name != "a";
      var stream := Header("a", 0) + Header("b", 0);
      Feed(open, INITIAL, stream).state.saved == []
      && FeedAll(open, INITIAL, [Header("a", 0), Header("b", 0)]).saved == [File("b", "")]
  {
    var open: Opener := name => name != "a";
    var a, b := Header("a", 0), Header("b", 0);
    FailedOpenStops(open, INITIAL, "a", b);
    FailedOpenStops(open, INITIAL, "a", "");
    assert Append(INITIAL, a + b) == INITIAL.(buffer := a + b);
    assert Append(INITIAL, a) == INITIAL.(buffer := a + "");
    assert Feed(open, INITIAL, a).state == INITIAL;
    LoneFrame(open, File("b", ""));
    assert Frame(File("b", "")) == b;
    FeedTwo(open, INITIAL, a, b);
  }

  // ----- which names survive

  ghost predicate CleanNames(s: State) {
    (s.local.Some? ==> CleanName(s.local.value.name)) && forall f :: f in s.saved ==> CleanName(f.name)
  }

  lemma {:induction false} RightKeepsNoNewline(s: string)
    requires '\n' !in s
    ensures '\n' !in TrimRight(s)
  {
    if s == "" {
    } else {
      RightKeepsNoNewline(s[..|s| - 1]);
    }
  }

  lemma {:induction false} TrimmedKeepsNoNewline(line: string)
    requires line != "" && line[|line| - 1] == '\n' && forall i :: 0 <= i < |line| - 1 ==> line[i] != '\n'
    ensures '\n' !in Trimmed(line)
    decreases |line|
  {
    if IsSpace(line[0]) {
      if |line| == 1 {
        assert TrimLeft(line) == TrimLeft("") == "";
      } else {
        TrimmedKeepsNoNewline(line[1..]);
      }
    } else {
      RightKeepsNoNewline(line[..|line| - 1]);
    }
  }

  lemma HeaderNamesClean(open: Opener, s: State)
    requires s.local.None? && Newline(s.buffer) < |s.buffer| && CleanNames(s)
    ensures CleanNames(ReadHeader(open, s).state)
  {
    TrimmedKeepsNoNewline(s.buffer[..Newline(s.buffer) + 1]);
  }

  /** No stored file ever has a colon or a line break in its name. */
  lemma {:induction false} NamesStayClean(open: Opener, s: State)
    requires Consistent(s) && CleanNames(s)
    ensures CleanNames(Drain(open, s).state)
    decreases |s.buffer|
  {
    if s.buffer != "" && s.local.None? && Newline(s.buffer) < |s.buffer| {
      var h := ReadHeader(open, s);
      HeaderNamesClean(open, s);
      if !h.stop.OpenFailed? {
        NamesStayClean(open, if h.state.local.Some? then ReadBody(h.state) else h.state);
      }
    } else if s.buffer != "" && s.local.Some? && s.fileSize >= 0 {
      NamesStayClean(open, ReadBody(s));
    }
  }

  /** A frame yields the file it was made from exactly when the name has no colon and no line break. */
  lemma FrameRoundTripIff(open: Opener, f: File)
    requires open(f.name) && |f.content| < INT64_LIMIT
    ensures Feed(open, INITIAL, Frame(f)).state.saved == [f] <==> CleanName(f.name)
  {
    if CleanName(f.name) {
      LoneFrame(open, f);
    } else {
      NamesStayClean(open, Append(INITIAL, Frame(f)));
      assert f in [f];
    }
  }
}
