/**
 The receiving end of a file transfer: a two-state parser of `FILE:<name>:<size>\n<body>` frames,
 run on whatever bytes the socket holds each time more arrive.
 */
module FileSaveSocket {
  import opened FrameHeader
  import opened Options

  datatype File = File(name: string, content: string)

  /** buffer: unread socket bytes; local: the file being received; saved: the completed files. */
  datatype State = State(buffer: string, local: Option<File>, fileSize: int, received: nat, saved: seq<File>)

  const INITIAL := State("", None, 0, 0, [])

  /** Why the receive loop stops: no bytes, no full header line, a file that does not open, or no progress. */
  datatype Stop = Drained | Waiting | OpenFailed | Spinning

  datatype Outcome = Outcome(state: State, stop: Stop)

  /** Which names the file system lets the receiver open. */
  type Opener = string -> bool

  /** What holds between two passes of the loop: the open file is short of its declared size. */
  ghost predicate Consistent(s: State) {
    s.local.Some? ==> |s.local.value.content| == s.received && (s.fileSize >= 0 ==> s.received < s.fileSize)
  }

  function Newline(s: string): (k: nat)
    ensures k <= |s|
    ensures k < |s| ==> s[k] == '\n'
    ensures forall i :: 0 <= i < k ==> s[i] != '\n'
  {
    if s == "" || s[0] == '\n' then 0 else 1 + Newline(s[1..])
  }

  /** Consuming a full header line. */
  function ReadHeader(open: Opener, s: State): (r: Outcome)
    requires Newline(s.buffer) < |s.buffer| && s.local.None?
    ensures |r.state.buffer| < |s.buffer|
    ensures r.stop.OpenFailed? ==> r.state.local.None?
    ensures r.state.local.Some? ==> r.state.received == 0 && r.state.local.value.content == ""
  {
    var k := Newline(s.buffer);
    var rest := s.(buffer := s.buffer[k + 1..]);
    match ParseHeader(s.buffer[..k + 1])
    case None => Outcome(rest, Drained)
    case Some(header) =>
      var announced := rest.(fileSize := header.1, received := 0);
      if open(header.0) then Outcome(announced.(local := Some(File(header.0, ""))), Drained)
      else Outcome(announced, OpenFailed)
  }

  /** How many bytes of the body one pass takes: what is missing or what is there. */
  function Amount(s: State): (n: nat)
    ensures n <= |s.buffer|
  {
    var want := s.fileSize - s.received;
    if want < 0 then 0 else if want < |s.buffer| then want else |s.buffer|
  }

  function Move(s: State, n: nat): State
    requires s.local.Some? && n <= |s.buffer|
  {
    var file := File(s.local.value.name, s.local.value.content + s.buffer[..n]);
    s.(buffer := s.buffer[n..], local := Some(file), received := s.received + n)
  }

  /** A complete file is closed and announced. */
  function CloseIfComplete(s: State): State
    requires s.local.Some?
  {
    if s.received == s.fileSize then
      s.(local := None, fileSize := 0, received := 0, saved := s.saved + [s.local.value])
    else s
  }

  /** Moving bytes of the body into the open file, and closing it when it is complete. */
  function ReadBody(s: State): (r: State)
    requires s.local.Some? && |s.local.value.content| == s.received
    requires s.fileSize >= 0 ==> s.received <= s.fileSize
    ensures Consistent(r)
    ensures |r.buffer| <= |s.buffer|
    ensures Consistent(s) && s.buffer != "" && s.fileSize >= 0 ==> |r.buffer| < |s.buffer|
    // a file is closed with exactly its declared size, having taken only what it missed
    ensures r.local.None? ==> |r.saved| == |s.saved| + 1 && r.saved[..|s.saved|] == s.saved
    ensures r.local.None? ==> |r.saved[|s.saved|].content| == s.fileSize
    ensures r.local.None? ==> |s.buffer| - |r.buffer| == s.fileSize - s.received
    ensures r.local.Some? ==> r.saved == s.saved
  {
    CloseIfComplete(Move(s, Amount(s)))
  }

  /** The receive loop, run until it returns or can make no more progress. */
  function Drain(open: Opener, s: State): (r: Outcome)
    requires Consistent(s)
    ensures Consistent(r.state)
    ensures |r.state.buffer| <= |s.buffer|
    decreases |s.buffer|
  {
    if s.buffer == "" then Outcome(s, Drained)
    else if s.local.None? then
      if Newline(s.buffer) == |s.buffer| then Outcome(s, Waiting)
      else
        var h := ReadHeader(open, s);
        if h.stop.OpenFailed? then h
        else Drain(open, if h.state.local.Some? then ReadBody(h.state) else h.state)
    else if s.fileSize < 0 then Outcome(s, Spinning)
    else Drain(open, ReadBody(s))
  }

  function Append(s: State, bytes: string): State {
    s.(buffer := s.buffer + bytes)
  }

  /** A segment arrives. */
  function Feed(open: Opener, s: State, segment: string): Outcome
    requires Consistent(s)
  {
    Drain(open, Append(s, segment))
  }

  // ----- the object

  class Receiver {
    var buffer: string
    var localFile: Option<File>
    var fileSize: int
    var bytesReceived: nat
    var saved: seq<File>
    const open: Opener

    ghost function Abs(): State
      reads this
    {
      State(buffer, localFile, fileSize, bytesReceived, saved)
    }

    constructor (open: Opener)
      ensures Abs() == INITIAL && this.open == open
    {
      buffer, localFile, fileSize, bytesReceived, saved := "", None, 0, 0, [];
      this.open := open;
    }

    /** A body read that leaves the state as it was repeats for ever; the model stops there. */
    predicate Spins()
      reads this
    {
      localFile.Some? && fileSize < 0
    }

    /** State 1 of the loop, once a full line is there; false when the file does not open. */
    method TakeHeader() returns (go: bool)
      requires localFile.None? && Newline(buffer) < |buffer|
      modifies this
      ensures Abs() == ReadHeader(open, old(Abs())).state
      ensures go == !ReadHeader(open, old(Abs())).stop.OpenFailed?
    {
      var k := Newline(buffer);
      var line := buffer[..k + 1];
      buffer := buffer[k + 1..];
      var header := ParseHeader(line);
      if header.Some? {
        fileSize := header.value.1;
        bytesReceived := 0;
        if !open(header.value.0) {
          return false;
        }
        localFile := Some(File(header.value.0, ""));
      }
      return true;
    }

    /** State 2 of the loop. */
    method TakeBody()
      requires localFile.Some? && |localFile.value.content| == bytesReceived
      requires fileSize >= 0 ==> bytesReceived <= fileSize
      modifies this
      ensures Abs() == ReadBody(old(Abs()))
    {
      var bytesToRead := fileSize - bytesReceived;
      var n := if bytesToRead < 0 then 0 else if bytesToRead < |buffer| then bytesToRead else |buffer|;
      localFile := Some(File(localFile.value.name, localFile.value.content + buffer[..n]));
      buffer := buffer[n..];
      bytesReceived := bytesReceived + n;
      if bytesReceived == fileSize {
        saved := saved + [localFile.value];
        localFile := None;
        bytesReceived := 0;
        fileSize := 0;
      }
    }

    /** Whether the source's loop ends; if not, the state is the one it repeats for ever. */
    method OnReadyRead() returns (ends: bool)
      requires Consistent(Abs())
      modifies this
      ensures Abs() == Drain(open, old(Abs())).state
      ensures ends == !Drain(open, old(Abs())).stop.Spinning?
    {
      while buffer != "" && !Spins()
        invariant Consistent(Abs())
        invariant Drain(open, Abs()) == Drain(open, old(Abs()))
        decreases |buffer|
      {
        if localFile.None? {
          if Newline(buffer) == |buffer| {
            return true;
          }
          var go := TakeHeader();
          if !go {
            return true;
          }
        }
        if localFile.Some? {
          TakeBody();
        }
      }
      return buffer == "";
    }

    method Arrive(segment: string) returns (ends: bool)
      requires Consistent(Abs())
      modifies this
      ensures Abs() == Feed(open, old(Abs()), segment).state
      ensures ends == !Feed(open, old(Abs()), segment).stop.Spinning?
    {
      buffer := buffer + segment;
      ends := OnReadyRead();
    }
  }
}
