/**
 What one run of the receive loop consumes, and which announcements in the stream make it stop
 early or spin.
 */
module DrainOutcome {
  import opened FileSaveSocket
  import opened FrameHeader
  import opened Options

  // ----- progress

  /** A pass of the loop over an open file changes nothing exactly when the declared size is negative. */
  lemma BodyProgress(s: State)
    requires Consistent(s) && s.local.Some? && s.buffer != ""
    ensures ReadBody(s) == s <==> s.fileSize < 0
  {
    if s.fileSize < 0 {
      assert s.local.value.content + s.buffer[..0] == s.local.value.content;
    }
  }

  ghost predicate IsTail(t: string, s: string) {
    |t| <= |s| && t == s[|s| - |t|..]
  }

  lemma TailOfTail(t: string, s: string, u: string)
    requires IsTail(t, s) && IsTail(s, u)
    ensures IsTail(t, u)
  {
  }

  lemma HeaderLeavesATail(open: Opener, s: State)
    requires s.local.None? && Newline(s.buffer) < |s.buffer|
    ensures IsTail(ReadHeader(open, s).state.buffer, s.buffer)
  {
  }

  ghost predicate BodyReadable(s: State) {
    s.local.Some? && |s.local.value.content| == s.received && (s.fileSize >= 0 ==> s.received <= s.fileSize)
  }

  lemma BodyLeavesATail(s: State)
    requires BodyReadable(s)
    ensures IsTail(ReadBody(s).buffer, s.buffer)
  {
  }

  /** What is left unread is always a tail of what was there: bytes are consumed in order. */
  lemma {:induction false} UnreadIsATail(open: Opener, s: State)
    requires Consistent(s)
    ensures IsTail(Drain(open, s).state.buffer, s.buffer)
    decreases |s.buffer|
  {
    hide ReadHeader, ReadBody;
    if s.buffer != "" && s.local.None? && Newline(s.buffer) < |s.buffer| {
      var h := ReadHeader(open, s);
      HeaderLeavesATail(open, s);
      if !h.stop.OpenFailed? {
        if h.state.local.Some? {
          UnreadIsATail(open, ReadBody(h.state));
          BodyLeavesATail(h.state);
          TailOfTail(Drain(open, s).state.buffer, ReadBody(h.state).buffer, h.state.buffer);
          TailOfTail(Drain(open, s).state.buffer, h.state.buffer, s.buffer);
        } else {
          UnreadIsATail(open, h.state);
          TailOfTail(Drain(open, s).state.buffer, h.state.buffer, s.buffer);
        }
      }
    } else if s.buffer != "" && s.local.Some? && s.fileSize >= 0 {
      UnreadIsATail(open, ReadBody(s));
      BodyLeavesATail(s);
      TailOfTail(Drain(open, s).state.buffer, ReadBody(s).buffer, s.buffer);
    }
  }

  lemma DrainConsumes(open: Opener, s: State)
    requires Consistent(s)
    ensures Drain(open, s).state == s || |Drain(open, s).state.buffer| < |s.buffer|
  {
  }

  lemma RefusalConsumes(open: Opener, s: State)
    requires Consistent(s) && Drain(open, s).stop.OpenFailed?
    ensures |Drain(open, s).state.buffer| < |s.buffer|
  {
  }

  lemma NewlineAt(s: string, k: nat)
    requires k < |s| && s[k] == '\n' && forall i :: 0 <= i < k ==> s[i] != '\n'
    ensures Newline(s) == k
  {
  }

  /** The receiver between two files. */
  predicate Idle(s: State) {
    s.local.None? && s.fileSize == 0 && s.received == 0
  }

  // ----- what the stream announces

  /** A file system that opens everything. */
  const ANY: Opener := (_: string) => true

  /** A header read as if every file opened: its name, its size, and the bytes that follow its line. */
  datatype Announcement = Announcement(name: string, size: int, after: nat)

  /** The headers a buffer holds, up to one whose size is negative. */
  function Announced(s: State): (a: seq<Announcement>)
    requires Consistent(s)
    ensures forall x :: x in a ==> x.after < |s.buffer|
    decreases |s.buffer|
  {
    if s.buffer == "" then []
    else if s.local.None? then
      if Newline(s.buffer) == |s.buffer| then []
      else
        var h := ReadHeader(ANY, s).state;
        if h.local.None? then Announced(h)
        else [Announcement(h.local.value.name, h.fileSize, |h.buffer|)] + Announced(ReadBody(h))
    else if s.fileSize < 0 then []
    else Announced(ReadBody(s))
  }

  /** The position of the first announced name that does not open. */
  function FirstRefused(open: Opener, a: seq<Announcement>): (f: nat)
    ensures f <= |a|
    ensures f < |a| ==> !open(a[f].name)
    ensures forall i :: 0 <= i < f ==> open(a[i].name)
  {
    if a == [] || !open(a[0].name) then 0 else 1 + FirstRefused(open, a[1..])
  }

  /** The bytes that follow the first refused header in the buffer. */
  function HeldBack(open: Opener, s: State): Option<string>
    requires Consistent(s)
  {
    var a := Announced(s);
    var f := FirstRefused(open, a);
    if f == |a| then None
    else
      assert a[f] in a;
      Some(s.buffer[|s.buffer| - a[f].after..])
  }

  lemma HeaderIgnoresOpener(open: Opener, s: State)
    requires s.local.None? && Newline(s.buffer) < |s.buffer|
    ensures !ReadHeader(ANY, s).stop.OpenFailed?
    ensures var h := ReadHeader(ANY, s); var r := ReadHeader(open, s);
      if h.state.local.None? then r == h
      else if open(h.state.local.value.name) then r == h
      else r == Outcome(h.state.(local := None), OpenFailed)
  {
  }

  lemma FirstRefusedStep(open: Opener, x: Announcement, a: seq<Announcement>)
    ensures FirstRefused(open, [x] + a) == if open(x.name) then 1 + FirstRefused(open, a) else 0
  {
    assert ([x] + a)[1..] == a;
  }

  lemma {:induction false} StopsAtFirstRefused(open: Opener, s: State)
    requires Consistent(s)
    ensures var a := Announced(s); var f := FirstRefused(open, a);
      && (Drain(open, s).stop.OpenFailed? <==> f < |a|)
      && (f < |a| ==> |Drain(open, s).state.buffer| == a[f].after)
    decreases |s.buffer|
  {
    hide ReadHeader, ReadBody;
    if s.buffer == "" || (s.local.None? && Newline(s.buffer) == |s.buffer|) {
    } else if s.local.None? {
      HeaderIgnoresOpener(open, s);
      var h := ReadHeader(ANY, s).state;
      if h.local.None? {
        StopsAtFirstRefused(open, h);
        assert Announced(s) == Announced(h);
      } else {
        var next := Announcement(h.local.value.name, h.fileSize, |h.buffer|);
        FirstRefusedStep(open, next, Announced(ReadBody(h)));
        if open(next.name) {
          StopsAtFirstRefused(open, ReadBody(h));
        }
        hide FirstRefused;
      }
    } else if s.fileSize >= 0 {
      StopsAtFirstRefused(open, ReadBody(s));
    }
  }

  /** The loop returns early exactly when an announced name is refused, just behind the first such header. */
  lemma RefusalStops(open: Opener, s: State)
    requires Consistent(s)
    ensures Drain(open, s).stop.OpenFailed? <==> exists x :: x in Announced(s) && !open(x.name)
    ensures Drain(open, s).stop.OpenFailed? <==> HeldBack(open, s).Some?
    ensures HeldBack(open, s).Some? ==> Drain(open, s).state.buffer == HeldBack(open, s).value
  {
    var a := Announced(s);
    var f := FirstRefused(open, a);
    StopsAtFirstRefused(open, s);
    UnreadIsATail(open, s);
    assert f < |a| ==> a[f] in a;
  }

  /** A file of negative size is open and bytes are there for it. */
  predicate Stuck(s: State) {
    s.local.Some? && s.fileSize < 0 && s.buffer != ""
  }

  lemma BodyKeepsSize(s: State)
    requires BodyReadable(s) && s.fileSize >= 0
    ensures !Stuck(ReadBody(s))
  {
  }

  lemma NextIsStuckIff(h: State)
    requires h.local.Some? && h.received == 0 && h.local.value.content == ""
    ensures Stuck(ReadBody(h)) <==> h.fileSize < 0 && h.buffer != ""
  {
  }

  /**
   The loop spins exactly when it starts stuck, or every announced name opens and one is announced
   with a negative size and at least one byte after its line.
   */
  lemma {:induction false} SpinsIff(open: Opener, s: State)
    requires Consistent(s)
    ensures Drain(open, s).stop.Spinning? <==>
      Stuck(s) || ((forall x :: x in Announced(s) ==> open(x.name))
                   && exists x :: x in Announced(s) && x.size < 0 && x.after > 0)
    decreases |s.buffer|
  {
    hide ReadHeader, ReadBody;
    if s.buffer == "" || (s.local.None? && Newline(s.buffer) == |s.buffer|) {
    } else if s.local.None? {
      HeaderIgnoresOpener(open, s);
      var h := ReadHeader(ANY, s).state;
      if h.local.None? {
        SpinsIff(open, h);
      } else {
        NextIsStuckIff(h);
        if open(h.local.value.name) {
          SpinsIff(open, ReadBody(h));
        }
      }
    } else if s.fileSize >= 0 {
      BodyKeepsSize(s);
      SpinsIff(open, ReadBody(s));
    }
  }

  /** A header line ends at its own line break. */
  lemma HeaderLine(name: string, size: string, rest: string)
    requires '\n' !in name && '\n' !in size
    ensures var h := HeaderText(name, size);
      && Newline(h + rest) == |h| - 1
      && (h + rest)[..|h|] == h && (h + rest)[|h|..] == rest
  {
    var h := HeaderText(name, size);
    var body := PREFIX + name + ":" + size;
    assert h == body + "\n" && '\n' !in body;
    forall i | 0 <= i < |body| ensures (h + rest)[i] != '\n' {
      assert (h + rest)[i] == body[i] && body[i] in body;
    }
    NewlineAt(h + rest, |body|);
  }

  /** A file whose name has a colon, such as one named after an IPv6 address, is never opened. */
  lemma ColonNameOpensNothing(open: Opener, s: State, name: string, size: nat, rest: string)
    requires s.local.None? && ':' in name && '\n' !in name
    ensures Drain(open, s.(buffer := Header(name, size) + rest)) == Drain(open, s.(buffer := rest))
  {
    hide ParseHeader, Decimal, HeaderText;
    DecimalIsDigits(size);
    HeaderLine(name, Decimal(size), rest);
    ColonNameIsNoHeader(name, Decimal(size));
  }

  /** Any header with a negative size and a byte after it makes the idle receiver spin. */
  lemma NegativeSizeSpins(open: Opener, s: State, name: string, n: int, rest: string)
    requires Idle(s) && CleanName(name) && open(name)
    requires 0 < n <= INT64_LIMIT && rest != ""
    ensures Drain(open, s.(buffer := HeaderText(name, "-" + Decimal(n)) + rest)).stop == Spinning
  {
    hide ParseHeader, Decimal, HeaderText;
    var size := "-" + Decimal(n);
    NegativeHeader(name, n);
    DecimalIsDigits(n);
    HeaderLine(name, size, rest);
    var h := s.(buffer := rest, local := Some(File(name, "")), fileSize := -n, received := 0);
    assert ReadHeader(open, s.(buffer := HeaderText(name, size) + rest)) == Outcome(h, Drained);
    BodyProgress(h);
  }

  lemma ShortestText()
    ensures HeaderText("a", "-" + Decimal(1)) + "x" == "FILE:a:-1\nx"
  {
    assert Decimal(1) == "1";
    assert "-" + "1" == "-1";
    calc {
      HeaderText("a", "-1") + "x";
      "FILE:" + "a" + ":" + "-1" + "\n" + "x";
      "FILE:a" + ":-1\nx";
      "FILE:a:-1\nx";
    }
  }

  /** The shortest such stream. */
  lemma ConcreteSpin()
    ensures Drain(ANY, INITIAL.(buffer := "FILE:a:-1\nx")).stop == Spinning
  {
    hide Drain, HeaderText, Decimal;
    ShortestText();
    NegativeSizeSpins(ANY, INITIAL, "a", 1, "x");
  }
}
