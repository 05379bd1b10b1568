/**
 * The command server's client loop (`handle_client`): a 256-byte line
 * buffer and its fill cursor `pos`, one socket read per pass, at most one
 * command line handled per pass, the leftover bytes moved to the front, and
 * the buffer dropped when it fills up without a line end.
 *
 * The socket is the sequence of things the peer sends, in order: runs of
 * bytes and, possibly, a failure. A read returns as many bytes of the next
 * run as fit in the free part of the buffer and leaves the rest of the run
 * for the next read. An empty run, or nothing left, is the end of the stream
 * (a read of 0 bytes). What the server writes is kept as the list of
 * messages passed to `write_all`, each of which succeeds.
 */
module TcpServer {
  import opened Wrappers
  import opened Text
  import Commands
  import opened LedControl

  const BufferSize: nat := 256
  const Newline: byte := 0x0A

  const WelcomeMessage: string := "ESP32 Command Server Ready\r\nAvailable commands: LED_ON, LED_OFF, STATUS, PING\r\n> "
  const Prompt: string := "\r\n> "
  const TooLongMessage: string := "ERROR: Command too long\r\n> "

  // ---------------------------------------------------------------------
  // The server's own `process_command`
  // ---------------------------------------------------------------------

  /** `process_command` of the server: the same commands, writing the server's `LED_ON` flag directly. */
  method ProcessCommand(flag: LedFlag, command: string) returns (response: string)
    modifies flag
    ensures Commands.Transition(response, flag.on) == Commands.ProcessCommand(command, old(flag.on))
  {
    var key := AsciiUpper(command);
    if key == "LED_ON" {
      flag.on := true;
      response := Commands.LedOnReply;
    } else if key == "LED_OFF" {
      flag.on := false;
      response := Commands.LedOffReply;
    } else if key == "STATUS" {
      response := if flag.on then Commands.StatusOnReply else Commands.StatusOffReply;
    } else if key == "PING" {
      response := Commands.PingReply;
    } else if key == "HELP" {
      response := Commands.HelpReply;
    } else if key == "" {
      response := Commands.EmptyReply;
    } else {
      response := Commands.UnknownReply;
    }
  }

  // ---------------------------------------------------------------------
  // Line framing
  // ---------------------------------------------------------------------

  /** The index of the first line end in `s`, if there is one (`iter().position`). */
  function FirstNewline(s: seq<byte>): (k: Option<nat>)
    ensures k.Some? ==> k.value < |s| && s[k.value] == Newline
    ensures k.Some? ==> forall j :: 0 <= j < k.value ==> s[j] != Newline
    ensures k.None? ==> forall j :: 0 <= j < |s| ==> s[j] != Newline
  {
    if s == [] then None
    else if s[0] == Newline then Some(0)
    else match FirstNewline(s[1..])
      case None => None
      case Some(k) => Some(k + 1)
  }

  /**
   * The command in a line (the bytes before its line end): the text if the
   * bytes are well-formed UTF-8 and the empty text otherwise, without its
   * trailing carriage returns, trimmed.
   */
  function CommandText(line: seq<byte>): string
  {
    var text := match DecodeUtf8(line) case Some(t) => t case None => "";
    Trim(TrimEndMatches(text, '\r'))
  }

  /** What one pass does with the buffered bytes: the command found, if any, the bytes kept, and whether they overflowed. */
  datatype Frame = Frame(command: Option<string>, pending: seq<byte>, overflow: bool)

  /**
   * One pass over the buffered bytes `data`: take the command before the
   * first line end and keep what follows it, then drop everything if the
   * buffer is full.
   */
  function FrameStep(data: seq<byte>): (f: Frame)
    requires |data| <= BufferSize
    ensures |f.pending| < BufferSize
  {
    var (command, kept) :=
      match FirstNewline(data)
      case Some(n) => (Some(CommandText(data[..n])), data[n + 1..])
      case None => (None, data);
    if |kept| >= BufferSize then Frame(command, [], true) else Frame(command, kept, false)
  }

  /**
   * The command of a pass is the text before the first line end and the
   * bytes after it are kept, in order; with no line end the bytes are kept
   * unless they fill the buffer, and then they are dropped. The buffer never
   * overflows in a pass that finds a command.
   */
  lemma FrameStepSpec(data: seq<byte>)
    requires |data| <= BufferSize
    ensures var f := FrameStep(data);
      && (f.command.Some? <==> exists n :: 0 <= n < |data| && data[n] == Newline)
      && (forall n :: 0 <= n < |data| && data[n] == Newline && (forall j :: 0 <= j < n ==> data[j] != Newline) ==>
            f.command == Some(CommandText(data[..n])) && f.pending == data[n + 1..] && !f.overflow)
      && (f.command.None? ==> (f.overflow <==> |data| == BufferSize) && f.pending == (if f.overflow then [] else data))
  {
    var f := FrameStep(data);
    match FirstNewline(data)
    case Some(k) =>
      forall n | 0 <= n < |data| && data[n] == Newline && (forall j :: 0 <= j < n ==> data[j] != Newline)
        ensures n == k
      {
      }
    case None =>
  }

  // ---------------------------------------------------------------------
  // The socket
  // ---------------------------------------------------------------------

  /** What the peer sends: a run of bytes, or a failure of the connection. */
  datatype Incoming = Bytes(data: seq<byte>) | Failure(error: int)

  /** The result of a read, as `Result<usize, Error>`. */
  datatype ReadResult = ReadOk(len: nat) | ReadErr(error: int)

  /** A read: its result, the bytes it delivered, and what is left to read. */
  datatype Received = Received(result: ReadResult, data: seq<byte>, rest: seq<Incoming>)

  function IncomingSize(x: Incoming): nat
  {
    match x
    case Bytes(d) => |d| + 1
    case Failure(_) => 1
  }

  /** A measure of what is left to read. */
  function InputSize(input: seq<Incoming>): nat
  {
    if input == [] then 0 else IncomingSize(input[0]) + InputSize(input[1..])
  }

  /** `socket.read` into a free space of `room` bytes. */
  function Receive(input: seq<Incoming>, room: nat): (r: Received)
    requires room > 0
    ensures r.result.ReadOk? ==> |r.data| == r.result.len <= room
    ensures r.result.ReadOk? && r.result.len > 0 ==> InputSize(r.rest) < InputSize(input)
  {
    if input == [] then Received(ReadOk(0), [], [])
    else
      match input[0]
      case Failure(e) => Received(ReadErr(e), [], input[1..])
      case Bytes(d) =>
        if |d| <= room then Received(ReadOk(|d|), d, input[1..])
        else
          var rest := [Bytes(d[room..])] + input[1..];
          assert rest[1..] == input[1..];
          Received(ReadOk(room), d[..room], rest)
  }

  /** A read delivers the next bytes sent, in order, as many as fit; none are lost or reordered. */
  lemma ReceiveKeepsOrder(d: seq<byte>, input: seq<Incoming>, room: nat)
    requires room > 0 && d != []
    ensures var r := Receive([Bytes(d)] + input, room);
      && r.result == ReadOk(if |d| <= room then |d| else room)
      && (if |d| <= room then r.rest == input else r.rest == [Bytes(d[room..])] + input)
      && r.data + (if |d| <= room then [] else d[room..]) == d
  {
    assert ([Bytes(d)] + input)[1..] == input;
    if |d| > room {
      assert d[..room] + d[room..] == d;
    }
  }

  // ---------------------------------------------------------------------
  // A whole session
  // ---------------------------------------------------------------------

  /** How `handle_client` ends: `Ok(())` at the end of the stream, or the read error. */
  datatype Outcome = Closed | Failed(error: int)

  /** A session: how it ends, what the server wrote, and the LED flag afterwards. */
  datatype Session = Session(outcome: Outcome, writes: seq<string>, ledOn: bool)

  /** What one pass writes and does to the flag, given the frame it found. */
  datatype Pass = Pass(writes: seq<string>, ledOn: bool)

  /** The reply to the command found (then a prompt), and the overflow message if the buffer filled. */
  function PassEffect(f: Frame, ledOn: bool): Pass
  {
    var (replies, led) :=
      match f.command
      case Some(c) =>
        var t := Commands.ProcessCommand(c, ledOn);
        ([t.response, Prompt], t.ledOn)
      case None => ([], ledOn);
    Pass(if f.overflow then replies + [TooLongMessage] else replies, led)
  }

  /**
   * The rest of a session from a state where `pending` is buffered and the
   * flag is `ledOn`: read into the free part of the buffer, then react.
   */
  function Run(input: seq<Incoming>, pending: seq<byte>, ledOn: bool): Session
    requires |pending| < BufferSize
    decreases InputSize(input), 2
  {
    AfterRead(Receive(input, BufferSize - |pending|), pending, ledOn)
  }

  /**
   * What a read leads to: the session ends at a read error or at the end of
   * the stream, and otherwise goes on with the bytes read after the buffered
   * ones.
   */
  function AfterRead(r: Received, pending: seq<byte>, ledOn: bool): Session
    requires |pending| < BufferSize
    requires r.result.ReadOk? ==> |pending| + r.result.len <= BufferSize && |r.data| == r.result.len
    decreases if r.result.ReadOk? && r.result.len > 0 then InputSize(r.rest) + 1 else 0, 1
  {
    match r.result
    case ReadErr(e) => Session(Failed(e), [], ledOn)
    case ReadOk(len) =>
      if len == 0 then Session(Closed, [], ledOn)
      else Resume(r.rest, pending + r.data, ledOn)
  }

  /**
   * The rest of a session once a read has filled the buffer to `data`:
   * handle it, write what the pass writes, and carry on with the bytes kept
   * and the rest of the stream.
   */
  function Resume(rest: seq<Incoming>, data: seq<byte>, ledOn: bool): Session
    requires |data| <= BufferSize
    decreases InputSize(rest) + 1, 0
  {
    var f := FrameStep(data);
    var p := PassEffect(f, ledOn);
    var next := Run(rest, f.pending, p.ledOn);
    Session(next.outcome, p.writes + next.writes, next.ledOn)
  }

  /** A whole session: the welcome message, then the passes from an empty buffer. */
  function HandleClientSpec(input: seq<Incoming>, ledOn: bool): Session
  {
    var s := Run(input, [], ledOn);
    Session(s.outcome, [WelcomeMessage] + s.writes, s.ledOn)
  }

  /** How a stream ends: at its first failure or its first empty run, whichever comes first; else at its end. */
  function StreamEnd(input: seq<Incoming>): Outcome
  {
    if input == [] then Closed
    else
      match input[0]
      case Failure(e) => Failed(e)
      case Bytes(d) => if d == [] then Closed else StreamEnd(input[1..])
  }

  /** A session ends as its stream does, whatever the bytes before the end hold. */
  lemma {:induction false} RunOutcome(input: seq<Incoming>, pending: seq<byte>, ledOn: bool)
    requires |pending| < BufferSize
    ensures Run(input, pending, ledOn).outcome == StreamEnd(input)
    decreases InputSize(input)
  {
    var r := Receive(input, BufferSize - |pending|);
    if r.result.ReadOk? && r.result.len > 0 {
      var f := FrameStep(pending + r.data);
      var p := PassEffect(f, ledOn);
      RunOutcome(r.rest, f.pending, p.ledOn);
      assert Run(input, pending, ledOn) == AfterRead(r, pending, ledOn) == Resume(r.rest, pending + r.data, ledOn);
      var d := input[0].data;
      if |d| > BufferSize - |pending| {
        assert r.rest[1..] == input[1..];
      }
    }
  }

  /** Well-formed UTF-8 gives its text, trimmed; anything else gives the empty command. */
  lemma CommandTextOfLine(line: seq<byte>)
    ensures DecodeUtf8(line).Some? ==> CommandText(line) == Trim(DecodeUtf8(line).value)
    ensures DecodeUtf8(line).None? ==> CommandText(line) == ""
  {
    if DecodeUtf8(line).Some? {
      TrimAfterCarriageReturns(DecodeUtf8(line).value);
    }
  }

  /** A command sent as UTF-8 text arrives as that text, trimmed, with or without a carriage return before the line end. */
  lemma CommandTextOfString(s: string)
    ensures CommandText(EncodeUtf8(s)) == Trim(s)
  {
    DecodeEncodeUtf8(s);
    CommandTextOfLine(EncodeUtf8(s));
  }

  /** A session whose stream has ended closes at once, writing nothing. */
  lemma RunAtEnd(pending: seq<byte>, ledOn: bool)
    requires |pending| < BufferSize
    ensures Run([], pending, ledOn) == Session(Closed, [], ledOn)
  {
    assert Run([], pending, ledOn) == AfterRead(Received(ReadOk(0), [], []), pending, ledOn);
  }

  /** The first read of a session delivers the peer's first run whole when it fits in the empty buffer. */
  lemma RunFirstRead(data: seq<byte>, input: seq<Incoming>, ledOn: bool)
    requires 0 < |data| <= BufferSize
    ensures Run([Bytes(data)] + input, [], ledOn) == Resume(input, data, ledOn)
  {
    assert ([Bytes(data)] + input)[1..] == input;
    var r := Receive([Bytes(data)] + input, BufferSize);
    assert r == Received(ReadOk(|data|), data, input);
    assert Run([Bytes(data)] + input, [], ledOn) == AfterRead(r, [], ledOn);
    assert [] + data == data;
  }

  /** A session in which the peer sends one run that fits in the buffer and closes. */
  lemma OneRunSession(data: seq<byte>, ledOn: bool)
    requires 0 < |data| <= BufferSize
    ensures var s := Resume([], data, ledOn);
      HandleClientSpec([Bytes(data)], ledOn) == Session(s.outcome, [WelcomeMessage] + s.writes, s.ledOn)
  {
    RunFirstRead(data, [], ledOn);
    assert [Bytes(data)] + [] == [Bytes(data)];
  }

  /** A pass that finds a line end answers the line's command with its reply and a prompt, and keeps what follows. */
  lemma ResumeWithLine(rest: seq<Incoming>, data: seq<byte>, ledOn: bool, n: nat)
    requires |data| <= BufferSize && n < |data| && data[n] == Newline
    requires forall j :: 0 <= j < n ==> data[j] != Newline
    ensures var t := Commands.ProcessCommand(CommandText(data[..n]), ledOn);
      var next := Run(rest, data[n + 1..], t.ledOn);
      Resume(rest, data, ledOn) == Session(next.outcome, [t.response, Prompt] + next.writes, next.ledOn)
  {
    FirstNewlineAt(data, n);
  }

  /**
   * A session in which the peer sends one line and closes: the welcome
   * message, the reply to the line's command, a prompt, and the flag as the
   * command leaves it.
   */
  lemma OneLineSession(line: seq<byte>, ledOn: bool)
    requires |line| < BufferSize && forall j :: 0 <= j < |line| ==> line[j] != Newline
    ensures var t := Commands.ProcessCommand(CommandText(line), ledOn);
      HandleClientSpec([Bytes(line + [Newline])], ledOn) == Session(Closed, [WelcomeMessage, t.response, Prompt], t.ledOn)
  {
    OneLineData(line);
    LineThenClose(line + [Newline], |line|, ledOn, Commands.ProcessCommand(CommandText(line), ledOn));
  }

  /**
   * A line that fills the whole buffer without a line end is dropped: the
   * server answers with the overflow message and runs no command.
   */
  lemma OverlongLineSession(line: seq<byte>, ledOn: bool)
    requires |line| == BufferSize && forall j :: 0 <= j < |line| ==> line[j] != Newline
    ensures HandleClientSpec([Bytes(line)], ledOn) == Session(Closed, [WelcomeMessage, TooLongMessage], ledOn)
  {
    OneRunSession(line, ledOn);
    assert FirstNewline(line).None?;
    RunAtEnd([], ledOn);
  }

  /**
   * Two lines that arrive in one read are not both answered: the pass
   * handles the first and keeps the second buffered, and when the peer then
   * closes, the second is never run.
   */
  lemma SecondLineWaits(first: seq<byte>, second: seq<byte>, ledOn: bool)
    requires |first| + |second| + 2 <= BufferSize
    requires forall j :: 0 <= j < |first| ==> first[j] != Newline
    ensures var t := Commands.ProcessCommand(CommandText(first), ledOn);
      HandleClientSpec([Bytes(first + [Newline] + second + [Newline])], ledOn) ==
        Session(Closed, [WelcomeMessage, t.response, Prompt], t.ledOn)
  {
    TwoLinesData(first, second);
    LineThenClose(first + [Newline] + second + [Newline], |first|, ledOn, Commands.ProcessCommand(CommandText(first), ledOn));
  }

  /**
   * The peer sends one run holding a line end at n and closes: the pass
   * answers the text before it, and the session ends whatever follows it.
   */
  lemma LineThenClose(data: seq<byte>, n: nat, ledOn: bool, t: Commands.Transition)
    requires |data| <= BufferSize && FirstLineEnd(data, n)
    requires t == Commands.ProcessCommand(CommandText(data[..n]), ledOn)
    ensures HandleClientSpec([Bytes(data)], ledOn) == Session(Closed, [WelcomeMessage, t.response, Prompt], t.ledOn)
  {
    OneRunSession(data, ledOn);
    ResumeWithLine([], data, ledOn, n);
    RunAtEnd(data[n + 1..], t.ledOn);
  }

  /** The first line end of `data` is at n. */
  predicate FirstLineEnd(data: seq<byte>, n: nat)
  {
    n < |data| && data[n] == Newline && forall j :: 0 <= j < n ==> data[j] != Newline
  }

  /** A line and its line end: the line end is the first, and the line is what precedes it. */
  lemma OneLineData(line: seq<byte>)
    requires forall j :: 0 <= j < |line| ==> line[j] != Newline
    ensures FirstLineEnd(line + [Newline], |line|) && (line + [Newline])[..|line|] == line
  {
    assert (line + [Newline])[..|line|] == line;
  }

  /** Two lines back to back: the first line end is the one after the first line. */
  lemma TwoLinesData(first: seq<byte>, second: seq<byte>)
    requires forall j :: 0 <= j < |first| ==> first[j] != Newline
    ensures var data := first + [Newline] + second + [Newline];
      FirstLineEnd(data, |first|) && data[..|first|] == first
  {
    var data := first + [Newline] + second + [Newline];
    assert data[..|first|] == first;
    assert forall j :: 0 <= j < |first| ==> data[j] == first[j];
  }

  // ---------------------------------------------------------------------
  // `handle_client`
  // ---------------------------------------------------------------------

  /** `socket.read(&mut buffer[pos..])`: copy the bytes a read delivers into the buffer from `pos` on. */
  method Read(buffer: array<byte>, pos: nat, input: seq<Incoming>) returns (result: ReadResult, rest: seq<Incoming>)
    requires buffer.Length == BufferSize && pos < BufferSize
    modifies buffer
    ensures result == Receive(input, BufferSize - pos).result && rest == Receive(input, BufferSize - pos).rest
    ensures result.ReadOk? ==>
      && pos + result.len <= BufferSize
      && buffer[..pos + result.len] == old(buffer[..pos]) + Receive(input, BufferSize - pos).data
      && buffer[pos + result.len..] == old(buffer[pos + result.len..])
    ensures result.ReadErr? ==> buffer[..] == old(buffer[..])
  {
    var r := Receive(input, BufferSize - pos);
    result, rest := r.result, r.rest;
    if result.ReadOk? {
      var i := 0;
      while i < |r.data|
        invariant 0 <= i <= |r.data|
        invariant buffer[..pos] == old(buffer[..pos])
        invariant forall j :: 0 <= j < i ==> buffer[pos + j] == r.data[j]
        invariant forall j :: pos + i <= j < buffer.Length ==> buffer[j] == old(buffer[j])
      {
        buffer[pos + i] := r.data[i];
        i := i + 1;
      }
      assert buffer[..pos + |r.data|] == old(buffer[..pos]) + r.data;
    }
  }

  /** `buffer[..pos].iter().position(|&b| b == b'\n')`. */
  method FindNewline(buffer: array<byte>, pos: nat) returns (k: Option<nat>)
    requires pos <= buffer.Length
    ensures k == FirstNewline(buffer[..pos])
  {
    var i := 0;
    while i < pos
      invariant 0 <= i <= pos
      invariant forall j :: 0 <= j < i ==> buffer[j] != Newline
    {
      if buffer[i] == Newline {
        FirstNewlineAt(buffer[..pos], i);
        return Some(i);
      }
      i := i + 1;
    }
    assert forall j :: 0 <= j < pos ==> buffer[..pos][j] != Newline;
    return None;
  }

  /** A line end with none before it is the first line end. */
  lemma FirstNewlineAt(s: seq<byte>, i: nat)
    requires i < |s| && s[i] == Newline
    requires forall j :: 0 <= j < i ==> s[j] != Newline
    ensures FirstNewline(s) == Some(i)
  {
  }

  /** `buffer.copy_within(from..to, 0)`: move `buffer[from..to]` to the front; the rest stays. */
  method CopyWithin(buffer: array<byte>, from: nat, to: nat)
    requires from <= to <= buffer.Length
    modifies buffer
    ensures buffer[..to - from] == old(buffer[from..to])
    ensures buffer[to - from..] == old(buffer[to - from..])
  {
    var i := 0;
    while i < to - from
      invariant 0 <= i <= to - from
      invariant forall j :: 0 <= j < i ==> buffer[j] == old(buffer[from + j])
      invariant forall j :: i <= j < buffer.Length ==> buffer[j] == old(buffer[j])
    {
      buffer[i] := buffer[from + i];
      i := i + 1;
    }
  }

  /**
   * The part of a pass after the read, on the buffer's first `pos` bytes:
   * handle the command before the first line end, if any, and move what
   * follows it to the front; then, if the buffer is full, drop it.
   */
  method HandleBuffered(flag: LedFlag, buffer: array<byte>, pos: nat, ghost data: seq<byte>)
    returns (newPos: nat, passWrites: seq<string>)
    requires buffer.Length == BufferSize && pos <= BufferSize && buffer[..pos] == data
    modifies flag, buffer
    ensures newPos < BufferSize && buffer[..newPos] == FrameStep(data).pending
    ensures passWrites == PassEffect(FrameStep(data), old(flag.on)).writes
    ensures flag.on == PassEffect(FrameStep(data), old(flag.on)).ledOn
  {
    newPos := pos;
    passWrites := [];
    var newline := FindNewline(buffer, pos);
    if newline.Some? {
      FrameStepAtLine(data, newline.value);
      newPos, passWrites := HandleLine(flag, buffer, pos, newline.value, data);
    } else {
      FrameStepWithoutLine(data);
    }
    if newPos >= BufferSize {
      passWrites := passWrites + [TooLongMessage];
      newPos := 0;
    }
  }

  /** A pass whose first line end is at n takes the command before it and keeps what follows. */
  lemma FrameStepAtLine(data: seq<byte>, n: nat)
    requires |data| <= BufferSize && FirstNewline(data) == Some(n)
    ensures n < |data| && FrameStep(data) == Frame(Some(CommandText(data[..n])), data[n + 1..], false)
  {
  }

  /** A pass without a line end keeps the bytes, or drops them when they fill the buffer. */
  lemma FrameStepWithoutLine(data: seq<byte>)
    requires |data| <= BufferSize && FirstNewline(data).None?
    ensures FrameStep(data) == if |data| == BufferSize then Frame(None, [], true) else Frame(None, data, false)
  {
  }

  /**
   * The line branch of a pass, with the first line end at n: run the command
   * before it, answer with the reply and a prompt, and move what follows it
   * to the front of the buffer.
   */
  method HandleLine(flag: LedFlag, buffer: array<byte>, pos: nat, n: nat, ghost data: seq<byte>)
    returns (newPos: nat, passWrites: seq<string>)
    requires buffer.Length == BufferSize && pos <= BufferSize && buffer[..pos] == data && n < pos
    modifies flag, buffer
    ensures newPos < pos
    ensures var t := Commands.ProcessCommand(CommandText(data[..n]), old(flag.on));
      && buffer[..newPos] == data[n + 1..] && passWrites == [t.response, Prompt] && flag.on == t.ledOn
  {
    assert buffer[..n] == data[..n];
    var command := CommandText(buffer[..n]);
    var response := ProcessCommand(flag, command);
    passWrites := [response, Prompt];
    var remaining := pos - n - 1;
    if remaining > 0 {
      CopyWithin(buffer, n + 1, pos);
    }
    newPos := remaining;
    assert buffer[..newPos] == data[n + 1..];
  }

  /**
   * The rest of a pass once a read has filled the buffer's first `pos` bytes
   * with `data`: handle the buffer, which makes up `Resume`.
   */
  method ServeRead(flag: LedFlag, buffer: array<byte>, pos: nat, ghost data: seq<byte>, ghost rest: seq<Incoming>,
                   ghost session: Session, ghost ledOn: bool)
    returns (newPos: nat, passWrites: seq<string>)
    requires buffer.Length == BufferSize && pos <= BufferSize
    requires buffer[..pos] == data && flag.on == ledOn && session == Resume(rest, data, ledOn)
    modifies flag, buffer
    ensures newPos < BufferSize
    ensures var next := Run(rest, buffer[..newPos], flag.on);
      session == Session(next.outcome, passWrites + next.writes, next.ledOn)
  {
    newPos, passWrites := HandleBuffered(flag, buffer, pos, data);
  }

  /**
   * One pass of `handle_client`'s loop, from `pending` buffered and the flag
   * at `ledOn`: read into the free part of the buffer, and stop at the end of
   * the stream or a read error; otherwise handle the buffered bytes. Either
   * way the pass and the rest of the session make up `Run` of the old state.
   */
  method ServePass(flag: LedFlag, buffer: array<byte>, pos: nat, queue: seq<Incoming>,
                   ghost pending: seq<byte>, ghost ledOn: bool, ghost session: Session)
    returns (stop: Option<Outcome>, newPos: nat, rest: seq<Incoming>, passWrites: seq<string>)
    requires buffer.Length == BufferSize && pos < BufferSize
    requires buffer[..pos] == pending && flag.on == ledOn && session == Run(queue, pending, ledOn)
    modifies flag, buffer
    ensures stop.Some? ==> session == Session(stop.value, [], ledOn) && flag.on == ledOn
    ensures stop.None? ==> newPos < BufferSize && InputSize(rest) < InputSize(queue)
    ensures stop.None? ==>
      var next := Run(rest, buffer[..newPos], flag.on);
      session == Session(next.outcome, passWrites + next.writes, next.ledOn)
  {
    assert |pending| == pos;
    ghost var r := Receive(queue, BufferSize - pos);
    assert session == AfterRead(r, pending, ledOn);
    var result;
    result, rest := Read(buffer, pos, queue);
    if result.ReadErr? {
      return Some(Failed(result.error)), pos, rest, [];
    }
    if result.len == 0 {
      return Some(Closed), pos, rest, [];
    }
    stop := None;
    newPos, passWrites := ServeRead(flag, buffer, pos + result.len, pending + r.data, rest, session, ledOn);
  }

  /**
   * `handle_client`: send the welcome message, then read, handle at most one
   * line per read, move the leftover to the front, and drop the buffer when
   * it is full, until the stream ends (`Ok(())`) or a read fails (the error).
   * The buffer holds fewer than 256 bytes at the top of every pass.
   */
  method HandleClient(flag: LedFlag, input: seq<Incoming>) returns (outcome: Outcome, writes: seq<string>)
    modifies flag
    ensures outcome == HandleClientSpec(input, old(flag.on)).outcome
    ensures writes == HandleClientSpec(input, old(flag.on)).writes
    ensures flag.on == HandleClientSpec(input, old(flag.on)).ledOn
  {
    writes := [WelcomeMessage];
    var buffer := new byte[BufferSize](_ => 0);
    var pos: nat := 0;
    var queue := input;
    ghost var whole := Run(input, [], flag.on);
    ghost var pending: seq<byte> := [];
    ghost var led := flag.on;
    ghost var session := whole;
    assert buffer[..pos] == pending;
    while true
      invariant buffer.Length == BufferSize && pos < BufferSize
      invariant buffer[..pos] == pending && flag.on == led && session == Run(queue, pending, led)
      invariant session.outcome == whole.outcome && session.ledOn == whole.ledOn
      invariant writes + session.writes == [WelcomeMessage] + whole.writes
      decreases InputSize(queue)
    {
      var stop, passWrites;
      stop, pos, queue, passWrites := ServePass(flag, buffer, pos, queue, pending, led, session);
      if stop.Some? {
        return stop.value, writes;
      }
      writes := writes + passWrites;
      pending, led := buffer[..pos], flag.on;
      session := Run(queue, pending, led);
    }
  }

}
