/** The console task of the 05-queues program (TaskA). Each pass of its loop
    shows one status text from queue2 if there is one, then polls the console
    for one byte (0xFF meaning none), echoes it, collects it into an 81-byte
    line buffer, and on '\n' or '\r' scans the line with "%s %u": a line whose
    first word is exactly "delay" and that carries a number sends that number
    on queue1; any other line is reported as invalid. */
module QueueConsole {
  import opened CText
  import opened Queues

  /** Size of the line buffer; one place is kept for the terminating NUL. */
  const BUFFER_SIZE: nat := 81

  /** The command word "delay". */
  const DELAY_TAG: seq<byte> := [0x64, 0x65, 0x6C, 0x61, 0x79]

  predicate IsLineEnd(c: byte) {
    c == LF || c == CR
  }

  /** The command a finished line (as a C string) holds: its argument when
      `sscanf(line, "%s %u", tag, &arg)` returns 2 and `strcmp(tag, "delay") == 0`. */
  function ParseDelayCommand(line: seq<byte>): (r: Option<u32>)
    ensures AllSpace(line) ==> r.None?
    ensures r.Some? ==> DELAY_TAG <= SkipSpace(line)
  {
    SkipSpaceEmpty(line);
    match ScanTagAndUnsigned(line)
    case ScanTwo(tag, arg) => if tag == DELAY_TAG then Some(arg) else None
    case _ => None
  }

  /** A line whose word is `delay` and whose number scans as n is the command n. */
  lemma {:induction false} ParseAt(line: seq<byte>, n: u32)
    requires SkipSpace(line) != []
    requires SpanToken(SkipSpace(line)) == 5 && SkipSpace(line)[..5] == DELAY_TAG
    requires ScanUnsigned(SkipSpace(SkipSpace(line)[5..])) == Some(n)
    ensures ParseDelayCommand(line) == Some(n)
  {
  }

  /** "%u" reads the decimal text of n back as n when no digit follows it. */
  lemma {:induction false} UnsignedOf(d: seq<byte>, rest: seq<byte>, n: u32)
    requires d == Decimal(n)
    requires rest == [] || !IsDigit(rest[0])
    ensures ScanUnsigned(d + rest) == Some(n)
  {
    assert SignLength(d + rest) == 0;
    assert (d + rest)[0..] == d + rest;
    SpanDigitsOver(d, rest);
    assert SubjectDigits(d + rest) == d;
    DecimalRoundTrip(n);
  }

  /** `delay`, surrounded by white space and followed by the decimal text of
      n, is the command n, whatever non-digit bytes come after the number. */
  lemma {:induction false} DelayCommandAccepted(lead: seq<byte>, sep: seq<byte>, n: u32, rest: seq<byte>)
    requires AllSpace(lead) && AllSpace(sep) && sep != []
    requires rest == [] || !IsDigit(rest[0])
    ensures ParseDelayCommand(lead + DELAY_TAG + sep + Decimal(n) + rest) == Some(n)
  {
    var d := Decimal(n);
    var line := lead + DELAY_TAG + sep + d + rest;
    var t := DELAY_TAG + (sep + (d + rest));
    assert line == lead + t;
    SkipSpaceOver(lead, t);
    SpanTokenOver(DELAY_TAG, sep + (d + rest));
    assert t[..5] == DELAY_TAG;
    assert t[5..] == sep + (d + rest);
    SkipSpaceOver(sep, d + rest);
    UnsignedOf(d, rest, n);
    ParseAt(line, n);
  }

  /** The acceptance test taken apart: a "delay" word and a number after it. */
  lemma {:induction false} ParseParts(line: seq<byte>)
    ensures var t := SkipSpace(line);
            ParseDelayCommand(line).Some? <==>
              (t != [] && t[..SpanToken(t)] == DELAY_TAG && ScanUnsigned(SkipSpace(t[SpanToken(t)..])).Some?)
  {
  }

  /** The word "%s" stores is `delay` exactly when the text starts with `delay`
      followed by white space or by the end of the text. */
  lemma {:induction false} TokenIsDelay(t: seq<byte>)
    ensures (t != [] && t[..SpanToken(t)] == DELAY_TAG) <==>
            (|t| >= 5 && t[..5] == DELAY_TAG && (|t| == 5 || IsSpace(t[5])))
  {
    SpanTokenIsLongestRun(t);
    if |t| >= 5 && t[..5] == DELAY_TAG && (|t| == 5 || IsSpace(t[5])) {
      assert t == DELAY_TAG + t[5..];
      SpanTokenOver(DELAY_TAG, t[5..]);
    }
  }

  /** A line is a command exactly when, after leading white space, it holds
      the word `delay`, white space, and an optionally signed run of digits;
      the argument is what "%u" makes of that number. */
  lemma {:induction false} DelayCommandShape(line: seq<byte>)
    ensures var t := SkipSpace(line);
            ParseDelayCommand(line).Some? <==>
              (|t| > |DELAY_TAG| && t[..|DELAY_TAG|] == DELAY_TAG && IsSpace(t[|DELAY_TAG|])
               && SubjectDigits(SkipSpace(t[|DELAY_TAG|..])) != [])
    ensures var t := SkipSpace(line);
            ParseDelayCommand(line).Some? ==>
              ParseDelayCommand(line).value == ScanUnsigned(SkipSpace(t[|DELAY_TAG|..])).value
  {
    var t := SkipSpace(line);
    ParseParts(line);
    TokenIsDelay(t);
    if |t| == 5 {
      assert t[5..] == [];
    }
  }

  /** What a finished line leads to (the part of the loop after a terminator). */
  datatype LineOutcome =
    | Pending                    // no line finished on this byte
    | Command(arg: u32)          // a valid "delay" command
    | Rejected(line: seq<byte>)  // any other line, reported with its text

  /** The outcome of a finished buffer: sscanf and the "%s" of the error report
      both see it only up to its first NUL byte. It is a command exactly when
      that text is `delay`, white space and a number, after optional white
      space; anything else is rejected and reported with that text. */
  function Complete(buffer: seq<byte>): (r: LineOutcome)
    ensures !r.Pending?
    ensures var t := SkipSpace(CString(buffer));
            r.Command? <==>
              (|t| > |DELAY_TAG| && t[..|DELAY_TAG|] == DELAY_TAG && IsSpace(t[|DELAY_TAG|])
               && SubjectDigits(SkipSpace(t[|DELAY_TAG|..])) != [])
    ensures var t := SkipSpace(CString(buffer));
            r.Command? ==> r.arg == ScanUnsigned(SkipSpace(t[|DELAY_TAG|..])).value
    ensures r.Rejected? ==>
              && NUL !in r.line && |r.line| <= |buffer| && r.line == buffer[..|r.line|]
              && (|r.line| < |buffer| ==> buffer[|r.line|] == NUL)
  {
    DelayCommandShape(CString(buffer));
    CStringIsPrefixToNul(buffer);
    match ParseDelayCommand(CString(buffer))
    case Some(n) => Command(n)
    case None => Rejected(CString(buffer))
  }

  /** One console byte as the loop handles it: what is echoed, the line it
      finishes if it is a line end, and the collected line afterwards. */
  datatype StepResult = StepResult(echo: Option<byte>, finished: Option<seq<byte>>, line: seq<byte>)

  function ReadStep(line: seq<byte>, c: byte): (r: StepResult)
    requires |line| < BUFFER_SIZE
    ensures |r.line| < BUFFER_SIZE
    ensures LF !in line && CR !in line && NO_BYTE !in line ==> LF !in r.line && CR !in r.line && NO_BYTE !in r.line
    ensures c == NO_BYTE <==> r.echo.None?
    ensures c != NO_BYTE ==> r.echo == Some(c)
    ensures c == NO_BYTE ==> r.line == line && r.finished.None?
    ensures IsLineEnd(c) <==> r.finished.Some?
    ensures IsLineEnd(c) ==> r.line == [] && r.finished.value == line
    ensures c != NO_BYTE && !IsLineEnd(c) && |line| < BUFFER_SIZE - 1 ==> r.line == line + [c]
    ensures |line| == BUFFER_SIZE - 1 && !IsLineEnd(c) ==> r.line == line
  {
    if c == NO_BYTE then StepResult(None, None, line)
    else if IsLineEnd(c) then StepResult(Some(c), Some(line), [])
    else if |line| < BUFFER_SIZE - 1 then StepResult(Some(c), None, line + [c])
    else StepResult(Some(c), None, line)
  }

  function Echoed(s: StepResult): seq<byte> {
    if s.echo.Some? then [s.echo.value] else []
  }

  function Finished(s: StepResult): seq<seq<byte>> {
    if s.finished.Some? then [s.finished.value] else []
  }

  /** The echo, the finished lines and the line left over after the bytes
      `input` are read one by one. */
  function Feed(line: seq<byte>, input: seq<byte>): (r: (seq<byte>, seq<seq<byte>>, seq<byte>))
    requires |line| < BUFFER_SIZE
    ensures |r.2| < BUFFER_SIZE
    ensures NO_BYTE !in r.0 && |r.0| <= |input|
    ensures |r.1| <= |input|
    decreases |input|
  {
    if input == [] then ([], [], line)
    else
      var s := ReadStep(line, input[0]);
      var f := Feed(s.line, input[1..]);
      (Echoed(s) + f.0, Finished(s) + f.1, f.2)
  }

  /** Every byte read is echoed once and in order, except the empty polls. */
  lemma {:induction false} FeedEchoes(line: seq<byte>, input: seq<byte>)
    requires |line| < BUFFER_SIZE
    ensures Feed(line, input).0 == Strip(input)
    decreases |input|
  {
    if input != [] {
      FeedEchoes(ReadStep(line, input[0]).line, input[1..]);
    }
  }

  /** Reading `a` and then `b` is reading a + b: the echoes and the finished
      lines of the two runs follow one another, and the second run starts
      from the line the first one left. */
  lemma {:induction false} FeedAppend(line: seq<byte>, a: seq<byte>, b: seq<byte>)
    requires |line| < BUFFER_SIZE
    ensures var f := Feed(line, a);
            var g := Feed(f.2, b);
            Feed(line, a + b) == (f.0 + g.0, f.1 + g.1, g.2)
    decreases |a|
  {
    if a == [] {
      var g := Feed(line, b);
      assert a + b == b && [] + g.0 == g.0 && [] + g.1 == g.1;
    } else {
      assert (a + b)[0] == a[0] && (a + b)[1..] == a[1..] + b;
      var s := ReadStep(line, a[0]);
      FeedAppend(s.line, a[1..], b);
      var f := Feed(s.line, a[1..]);
      var g := Feed(f.2, b);
      assert Echoed(s) + (f.0 + g.0) == (Echoed(s) + f.0) + g.0;
      assert Finished(s) + (f.1 + g.1) == (Finished(s) + f.1) + g.1;
    }
  }

  /** Typing a line, with any number of empty polls (NO_BYTE) mixed in:
      every real byte, the terminator included, is echoed once; the buffer
      keeps the first 80 real bytes and drops the rest; the terminator
      finishes exactly one line and leaves the buffer empty. */
  lemma {:induction false} TypedLinePolled(line: seq<byte>, xs: seq<byte>, t: byte)
    requires |line| < BUFFER_SIZE
    requires forall i :: 0 <= i < |xs| ==> !IsLineEnd(xs[i])
    requires IsLineEnd(t)
    ensures Feed(line, xs + [t]) == (Strip(xs) + [t], [Kept(line, Strip(xs), BUFFER_SIZE - 1)], [])
    decreases |xs|
  {
    if xs == [] {
      assert xs + [t] == [t];
      FeedLineEnd(line, t);
      assert Kept(line, Strip(xs), BUFFER_SIZE - 1) == line;
    } else {
      var c := xs[0];
      assert xs + [t] == [c] + (xs[1..] + [t]);
      TypedLinePolled(ReadStep(line, c).line, xs[1..], t);
      if c == NO_BYTE {
        FeedPoll(line, xs[1..] + [t]);
        assert Strip(xs) == Strip(xs[1..]);
      } else {
        FeedByte(line, c, xs[1..] + [t]);
        var typed := Strip(xs);
        assert typed == [c] + Strip(xs[1..]);
        assert typed[0] == c && typed[1..] == Strip(xs[1..]);
        assert [c] + (Strip(xs[1..]) + [t]) == typed + [t];
        KeptStep(line, typed, BUFFER_SIZE - 1);
      }
    }
  }

  /** Typing a line without empty polls: the echo is the line and its
      terminator. */
  lemma TypedLine(line: seq<byte>, xs: seq<byte>, t: byte)
    requires |line| < BUFFER_SIZE
    requires forall i :: 0 <= i < |xs| ==> xs[i] != NO_BYTE && !IsLineEnd(xs[i])
    requires IsLineEnd(t)
    ensures Feed(line, xs + [t]) == (xs + [t], [Kept(line, xs, BUFFER_SIZE - 1)], [])
  {
    StripDropsPolls(xs);
    TypedLinePolled(line, xs, t);
  }

  /** Bytes without a line end, polls mixed in: the real ones are echoed,
      no line is finished, and the buffer holds the first 80 real bytes
      after what it held before. */
  lemma {:induction false} FeedNoLineEnd(line: seq<byte>, xs: seq<byte>)
    requires |line| < BUFFER_SIZE
    requires forall i :: 0 <= i < |xs| ==> !IsLineEnd(xs[i])
    ensures Feed(line, xs) == (Strip(xs), [], Kept(line, Strip(xs), BUFFER_SIZE - 1))
    decreases |xs|
  {
    if xs == [] {
      assert Kept(line, Strip(xs), BUFFER_SIZE - 1) == line;
    } else {
      var c := xs[0];
      assert xs == [c] + xs[1..];
      FeedNoLineEnd(ReadStep(line, c).line, xs[1..]);
      if c == NO_BYTE {
        FeedPoll(line, xs[1..]);
        assert Strip(xs) == Strip(xs[1..]);
      } else {
        FeedByte(line, c, xs[1..]);
        var typed := Strip(xs);
        assert typed == [c] + Strip(xs[1..]);
        assert typed[0] == c && typed[1..] == Strip(xs[1..]);
        KeptStep(line, typed, BUFFER_SIZE - 1);
      }
    }
  }

  /** Two lines typed one after the other from an empty buffer finish as two
      separate lines, each holding its own first 80 real bytes. */
  lemma TwoLines(xs: seq<byte>, t: byte, ys: seq<byte>, u: byte)
    requires forall i :: 0 <= i < |xs| ==> !IsLineEnd(xs[i])
    requires forall i :: 0 <= i < |ys| ==> !IsLineEnd(ys[i])
    requires IsLineEnd(t) && IsLineEnd(u)
    ensures Feed([], xs + [t] + ys + [u]).1 == [Kept([], Strip(xs), BUFFER_SIZE - 1), Kept([], Strip(ys), BUFFER_SIZE - 1)]
    ensures Feed([], xs + [t] + ys + [u]).2 == []
  {
    assert xs + [t] + ys + [u] == (xs + [t]) + (ys + [u]);
    FeedAppend([], xs + [t], ys + [u]);
    TypedLinePolled([], xs, t);
    TypedLinePolled([], ys, u);
  }

  lemma {:induction false} FeedPoll(line: seq<byte>, rest: seq<byte>)
    requires |line| < BUFFER_SIZE
    ensures Feed(line, [NO_BYTE] + rest) == Feed(line, rest)
  {
    assert ([NO_BYTE] + rest)[0] == NO_BYTE && ([NO_BYTE] + rest)[1..] == rest;
    var f := Feed(line, rest);
    assert [] + f.0 == f.0 && [] + f.1 == f.1;
  }

  lemma {:induction false} FeedLineEnd(line: seq<byte>, t: byte)
    requires |line| < BUFFER_SIZE && IsLineEnd(t)
    ensures Feed(line, [t]) == ([t], [line], [])
  {
    var s := ReadStep(line, t);
    assert s == StepResult(Some(t), Some(line), []);
    assert ([t])[1..] == [];
    assert Feed(s.line, []) == ([], [], []);
    assert [t] + [] == [t] && [line] + [] == [line];
  }

  lemma {:induction false} FeedByte(line: seq<byte>, c: byte, rest: seq<byte>)
    requires |line| < BUFFER_SIZE
    requires c != NO_BYTE && !IsLineEnd(c)
    ensures var f := Feed(ReadStep(line, c).line, rest);
            Feed(line, [c] + rest) == ([c] + f.0, f.1, f.2)
  {
    var s := ReadStep(line, c);
    assert s.echo == Some(c) && s.finished == None;
    assert ([c] + rest)[0] == c && ([c] + rest)[1..] == rest;
    var f := Feed(s.line, rest);
    assert [] + f.1 == f.1;
  }

  /** The text "delay N" fits the line buffer and holds no NUL, no line end
      and no 0xFF byte. */
  lemma {:induction false} DelayTextBytes(n: u32)
    ensures var text := DELAY_TAG + [SPACE] + Decimal(n);
            && |text| < BUFFER_SIZE
            && forall i :: 0 <= i < |text| ==> text[i] != NO_BYTE && !IsLineEnd(text[i]) && text[i] != NUL
  {
    var d := Decimal(n);
    var text := DELAY_TAG + [SPACE] + d;
    DecimalLength(n, 10);
    forall i | 0 <= i < |text|
      ensures text[i] != NO_BYTE && !IsLineEnd(text[i]) && text[i] != NUL
    {
      if i > 5 {
        assert text[i] == d[i - 6];
      }
    }
  }

  /** Finished, the text "delay N" is the command with argument N. */
  lemma {:induction false} DelayTextCommand(n: u32)
    ensures Complete(DELAY_TAG + [SPACE] + Decimal(n)) == Command(n)
  {
    DelayTextBytes(n);
    DelayTextParse(n);
    CompleteWhole(DELAY_TAG + [SPACE] + Decimal(n), n);
  }

  lemma {:induction false} DelayTextParse(n: u32)
    ensures ParseDelayCommand(DELAY_TAG + [SPACE] + Decimal(n)) == Some(n)
  {
    DelayCommandAccepted([], [SPACE], n, []);
    assert [] + DELAY_TAG + [SPACE] + Decimal(n) + [] == DELAY_TAG + [SPACE] + Decimal(n);
  }

  lemma {:induction false} CompleteWhole(text: seq<byte>, n: u32)
    requires forall i :: 0 <= i < |text| ==> text[i] != NUL
    requires ParseDelayCommand(text) == Some(n)
    ensures Complete(text) == Command(n)
  {
    CStringWhole(text);
  }

  /** Typing "delay N" and a line end on an empty buffer echoes every byte and
      finishes a single line, which is the command with argument N. */
  lemma {:induction false} TypedDelayCommand(n: u32, t: byte)
    requires IsLineEnd(t)
    ensures var text := DELAY_TAG + [SPACE] + Decimal(n);
            Feed([], text + [t]) == (text + [t], [text], [])
            && Complete(text) == Command(n)
  {
    var text := DELAY_TAG + [SPACE] + Decimal(n);
    DelayTextBytes(n);
    DelayTextCommand(n);
    TypedLine([], text, t);
    KeptWhole(text);
  }

  /** A text shorter than the buffer is kept whole. */
  lemma KeptWhole(text: seq<byte>)
    requires |text| < BUFFER_SIZE
    ensures Kept([], text, BUFFER_SIZE - 1) == text
  {
    assert [] + text == text;
  }

  /** What the console task reports for the line finished in one pass. */
  datatype Report =
    | Quiet                      // no line finished
    | Sent(arg: u32)             // command detected and queued on queue1
    | SendFailed(arg: u32)       // command detected (its argument logged), queue1 full: error logged
    | Invalid(line: seq<byte>)   // "<line> is no valid command", logged as an error

  class ConsoleTask {
    const buffer: array<byte>
    var bufferIx: nat
    var messageReceived: bool

    ghost predicate Valid()
      reads this
    {
      buffer.Length == BUFFER_SIZE && bufferIx < BUFFER_SIZE && !messageReceived
    }

    /** The bytes collected since the last line end. */
    ghost function Line(): seq<byte>
      reads this, buffer
      requires Valid()
    {
      buffer[..bufferIx]
    }

    constructor ()
      ensures Valid() && fresh(buffer)
      ensures bufferIx == 0 && buffer[..] == seq(BUFFER_SIZE, _ => NUL)
    {
      buffer := new byte[BUFFER_SIZE](_ => NUL);
      bufferIx := 0;
      messageReceived := false;
    }

    /** Handles one result of the console read: echo, collect, and on a line
        end scan the line and start a new one. */
    method ReadByte(c: byte) returns (echo: Option<byte>, outcome: LineOutcome)
      requires Valid()
      modifies this, buffer
      ensures Valid()
      ensures var r := ReadStep(old(Line()), c);
              && echo == r.echo && Line() == r.line
              && outcome == if r.finished.Some? then Complete(r.finished.value) else Pending
      ensures buffer[..] ==
        if c == NO_BYTE then old(buffer[..])
        else if IsLineEnd(c) then old(buffer[..])[old(bufferIx) := NUL]
        else if old(bufferIx) < BUFFER_SIZE - 1 then old(buffer[..])[old(bufferIx) := c]
        else old(buffer[..])
    {
      echo, outcome := None, Pending;
      if c != NO_BYTE {
        if c == LF || c == CR {
          messageReceived := true;
        } else {
          if bufferIx < BUFFER_SIZE - 1 {
            buffer[bufferIx] := c;
            bufferIx := bufferIx + 1;
          }
        }
        echo := Some(c);
        if messageReceived {
          buffer[bufferIx] := NUL;
          outcome := Complete(buffer[..bufferIx]);
          bufferIx := 0;
          messageReceived := false;
        }
      }
    }

    /** One pass of the task loop, given the byte the console read returned. */
    method Iterate(c: byte, commands: BoundedQueue<u32>, notices: BoundedQueue<seq<byte>>)
      returns (shown: Option<seq<byte>>, echo: Option<byte>, report: Report)
      requires Valid() && commands.Valid() && notices.Valid()
      modifies this, buffer, commands, notices
      ensures Valid() && commands.Valid() && notices.Valid()
      ensures (shown, notices.items) == Receive(old(notices.items))
      ensures var r := ReadStep(old(Line()), c);
              && echo == r.echo && Line() == r.line
              && (r.finished.None? ==> report == Quiet && commands.items == old(commands.items))
              && (r.finished.Some? ==> match Complete(r.finished.value) {
                    case Pending => false
                    case Rejected(line) =>
                      report == Invalid(line) && commands.items == old(commands.items)
                    case Command(arg) =>
                      var (queued, ok) := Send(old(commands.items), commands.capacity, arg);
                      commands.items == queued && report == (if ok then Sent(arg) else SendFailed(arg))
                  })
    {
      shown := notices.TryReceive();
      var outcome;
      echo, outcome := ReadByte(c);
      match outcome {
        case Pending =>
          report := Quiet;
        case Rejected(line) =>
          report := Invalid(line);
        case Command(arg) =>
          var ok := commands.TrySend(arg);
          report := if ok then Sent(arg) else SendFailed(arg);
      }
    }
  }
}
