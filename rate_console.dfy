/** The console task of the 03-blink-led-with-tasks program (TaskConsole).
    Each round of its outer loop clears a 7-byte buffer; its inner loop then
    reads console bytes (0xFF meaning none), keeps at most six of them, echoes
    every byte but '\n', and on '\n' converts the buffer with `strtol`, clamps
    the value into [MIN_DELAY, MAX_DELAY] and writes it to the shared blink
    interval `led_state_interval`. */
module RateConsole {
  import opened CText
  import opened Bounds

  /** Size of the buffer; its last byte is never written and stays NUL. */
  const BUFFER_SIZE: nat := 7
  /** The most bytes a line keeps. */
  const LINE_ROOM: nat := BUFFER_SIZE - 1
  const MIN_DELAY: int := 200
  const MAX_DELAY: int := 10000
  /** The value `led_state_interval` starts with. */
  const INITIAL_INTERVAL: int := 1000

  /** The interval a finished line sets: `strtol` of the buffer as a C string,
      clamped into [MIN_DELAY, MAX_DELAY]. A line without digits converts to
      0 and so sets MIN_DELAY. */
  function LineInterval(line: seq<byte>): (r: int)
    ensures MIN_DELAY <= r <= MAX_DELAY
    ensures var v := StrToL(CString(line));
            && (MIN_DELAY <= v <= MAX_DELAY ==> r == v)
            && (v < MIN_DELAY ==> r == MIN_DELAY)
            && (v > MAX_DELAY ==> r == MAX_DELAY)
    ensures SubjectDigits(SkipSpace(CString(line))) == [] ==> r == MIN_DELAY
  {
    Clamp(StrToL(CString(line)), MIN_DELAY, MAX_DELAY)
  }

  /** A buffer holds at most six bytes, so the converted value has at most six
      digits and fits every `long`: `strtol` cannot overflow here. */
  lemma ConversionFits(line: seq<byte>)
    requires |line| <= LINE_ROOM
    ensures -1000000 < StrToL(CString(line)) < 1000000
  {
    var s := CString(line);
    var v := StrToL(s);
    PowMonotone(|s|, 6);
    assert Pow10(6) == 1000000 by {
      assert Pow10(3) == 1000;
      assert Pow10(6) == 10 * (10 * (10 * Pow10(3)));
    }
    assert v < Pow10(|s|) && -v < Pow10(|s|);
  }

  /** The NUL bytes behind the collected line do not change the C string. */
  lemma {:induction false} CStringPadded(line: seq<byte>, pad: seq<byte>)
    requires forall i :: 0 <= i < |pad| ==> pad[i] == NUL
    ensures CString(line + pad) == CString(line)
    decreases |line|
  {
    if line == [] {
      assert line + pad == pad;
    } else if line[0] != NUL {
      assert (line + pad)[1..] == line[1..] + pad;
      CStringPadded(line[1..], pad);
    }
  }

  /** One `getchar` result as the inner loop handles it: what is echoed, the
      interval written if the byte is '\n', and the collected line afterwards. */
  datatype KeyResult = KeyResult(echo: Option<byte>, interval: Option<int>, line: seq<byte>)

  function KeyStep(line: seq<byte>, c: byte): (r: KeyResult)
    requires |line| <= LINE_ROOM
    ensures |r.line| <= LINE_ROOM
    ensures c == NO_BYTE ==> r == KeyResult(None, None, line)
    ensures c != NO_BYTE && |line| < LINE_ROOM ==> r.line == line + [c]
    ensures |line| == LINE_ROOM ==> r.line == line
    ensures r.echo.Some? <==> c != NO_BYTE && c != LF
    ensures r.echo.Some? ==> r.echo.value == c
    ensures r.interval.Some? <==> c == LF
    ensures r.interval.Some? ==> r.interval.value == LineInterval(r.line)
  {
    if c == NO_BYTE then KeyResult(None, None, line)
    else
      var kept := if |line| < LINE_ROOM then line + [c] else line;
      if c == LF then KeyResult(None, Some(LineInterval(kept)), kept)
      else KeyResult(Some(c), None, kept)
  }

  /** What the inner loop does with the bytes `keys`, starting from `line`:
      the echo, the interval written by the first '\n' (if any), the line
      collected, and how many bytes were read up to and including that '\n'. */
  datatype Capture = Capture(echo: seq<byte>, interval: Option<int>, line: seq<byte>, consumed: nat)

  function Echoed(r: KeyResult): seq<byte> {
    if r.echo.Some? then [r.echo.value] else []
  }

  /** Capture `r` preceded by `echo` and `k` bytes that finished nothing. */
  function After(echo: seq<byte>, k: nat, r: Capture): Capture {
    Capture(echo + r.echo, r.interval, r.line, k + r.consumed)
  }

  function CaptureFrom(line: seq<byte>, keys: seq<byte>): (r: Capture)
    requires |line| <= LINE_ROOM
    ensures |r.line| <= LINE_ROOM && r.consumed <= |keys|
    decreases |keys|
  {
    if keys == [] then Capture([], None, line, 0)
    else
      var s := KeyStep(line, keys[0]);
      if s.interval.Some? then Capture(Echoed(s), s.interval, s.line, 1)
      else After(Echoed(s), 1, CaptureFrom(s.line, keys[1..]))
  }

  lemma AfterAfter(a: seq<byte>, k: nat, b: seq<byte>, j: nat, r: Capture)
    ensures After(a, k, After(b, j, r)) == After(a + b, k + j, r)
  {
    assert a + (b + r.echo) == (a + b) + r.echo;
  }

  /** Typing a line, with any number of empty polls (NO_BYTE) mixed in:
      every real byte before the '\n' is echoed and the polls and the '\n'
      are not; the buffer keeps the first six real bytes, the '\n' among
      them when there is room; the '\n' ends the capture and writes the
      interval of what was kept. */
  lemma {:induction false} TypedLinePolled(line: seq<byte>, xs: seq<byte>)
    requires |line| <= LINE_ROOM
    requires LF !in xs
    ensures var kept := Kept(line, Strip(xs) + [LF], LINE_ROOM);
            CaptureFrom(line, xs + [LF]) == Capture(Strip(xs), Some(LineInterval(kept)), kept, |xs| + 1)
    decreases |xs|
  {
    var keys := xs + [LF];
    if xs == [] {
      assert keys == [LF];
      assert Strip(xs) + [LF] == [LF];
      assert Kept(line, [LF], LINE_ROOM) == KeyStep(line, LF).line;
    } else {
      assert keys[0] == xs[0] && keys[1..] == xs[1..] + [LF];
      assert LF !in xs[1..] by { assert forall c :: c in xs[1..] ==> c in xs; }
      var s := KeyStep(line, xs[0]);
      TypedLinePolled(s.line, xs[1..]);
      if xs[0] == NO_BYTE {
        assert Strip(xs) == Strip(xs[1..]);
      } else {
        var typed := Strip(xs) + [LF];
        assert Strip(xs) == [xs[0]] + Strip(xs[1..]);
        assert typed[0] == xs[0] && typed[1..] == Strip(xs[1..]) + [LF];
        KeptStep(line, typed, LINE_ROOM);
      }
    }
  }

  /** Typing a line without empty polls: the echo is the line itself. */
  lemma TypedLine(line: seq<byte>, xs: seq<byte>)
    requires |line| <= LINE_ROOM
    requires forall i :: 0 <= i < |xs| ==> xs[i] != NO_BYTE && xs[i] != LF
    ensures var kept := Kept(line, xs + [LF], LINE_ROOM);
            CaptureFrom(line, xs + [LF]) == Capture(xs, Some(LineInterval(kept)), kept, |xs| + 1)
  {
    StripDropsPolls(xs);
    TypedLinePolled(line, xs);
  }

  /** The inner loop stops at the first '\n': the bytes after it are left
      unread and change nothing in the capture. */
  lemma {:induction false} CaptureStops(line: seq<byte>, xs: seq<byte>, more: seq<byte>)
    requires |line| <= LINE_ROOM
    requires LF !in xs
    ensures CaptureFrom(line, xs + [LF] + more) == CaptureFrom(line, xs + [LF])
    decreases |xs|
  {
    var keys := xs + [LF] + more;
    if xs == [] {
      assert keys[0] == LF && (xs + [LF])[0] == LF;
    } else {
      assert keys[0] == xs[0] && keys[1..] == xs[1..] + [LF] + more;
      assert (xs + [LF])[0] == xs[0] && (xs + [LF])[1..] == xs[1..] + [LF];
      assert LF !in xs[1..] by { assert forall c :: c in xs[1..] ==> c in xs; }
      CaptureStops(KeyStep(line, xs[0]).line, xs[1..], more);
    }
  }

  /** Without a '\n' the inner loop reads every byte, echoes the real ones,
      writes no interval and keeps the first six real bytes after what the
      buffer held before. */
  lemma {:induction false} CaptureNoLF(line: seq<byte>, keys: seq<byte>)
    requires |line| <= LINE_ROOM
    requires LF !in keys
    ensures CaptureFrom(line, keys).interval.None?
    ensures CaptureFrom(line, keys).consumed == |keys|
    ensures CaptureFrom(line, keys).echo == Strip(keys)
    ensures CaptureFrom(line, keys).line == Kept(line, Strip(keys), LINE_ROOM)
    decreases |keys|
  {
    if keys == [] {
      assert Kept(line, Strip(keys), LINE_ROOM) == line;
    } else {
      assert LF !in keys[1..] by { assert forall c :: c in keys[1..] ==> c in keys; }
      CaptureNoLF(KeyStep(line, keys[0]).line, keys[1..]);
      if keys[0] == NO_BYTE {
        assert Strip(keys) == Strip(keys[1..]);
      } else {
        var typed := Strip(keys);
        assert typed == [keys[0]] + Strip(keys[1..]);
        assert typed[0] == keys[0] && typed[1..] == Strip(keys[1..]);
        KeptStep(line, typed, LINE_ROOM);
      }
    }
  }

  /** Typing the decimal text of any number followed by '\n' writes that
      number clamped into [MIN_DELAY, MAX_DELAY]. A number of seven digits or
      more is cut to its first six, which still denote at least 100000, so
      the clamp gives MAX_DELAY as it would for the whole number. */
  lemma {:induction false} TypedNumber(n: nat)
    ensures var d := Decimal(n);
            CaptureFrom([], d + [LF]).interval == Some(Clamp(n, MIN_DELAY, MAX_DELAY))
  {
    var d := Decimal(n);
    assert forall i :: 0 <= i < |d| ==> d[i] != NO_BYTE && d[i] != LF;
    TypedLine([], d);
    if n < 1000000 {
      var tail := NumberKept(n);
      NumberText(n, tail);
    } else {
      LongNumberText(n);
    }
  }

  /** A number of seven digits or more is kept as its first six digits,
      and `strtol` of those is above MAX_DELAY. */
  lemma {:induction false} LongNumberText(n: nat)
    requires n >= 1000000
    ensures var d := Decimal(n);
            && |d| > LINE_ROOM
            && Kept([], d + [LF], LINE_ROOM) == d[..LINE_ROOM]
            && StrToL(CString(d[..LINE_ROOM])) > MAX_DELAY
  {
    var d := Decimal(n);
    assert Pow10(6) == 1000000;
    DecimalLongerThan(n, 6);
    assert [] + (d + [LF]) == d + [LF];
    assert (d + [LF])[..LINE_ROOM] == d[..LINE_ROOM];
    var head := d[..LINE_ROOM];
    assert AllDigits(head);
    assert NUL !in head by {
      forall i | 0 <= i < |head| ensures head[i] != NUL {
        assert IsDigit(head[i]);
      }
    }
    CStringWhole(head);
    SkipSpaceOver([], head);
    assert [] + head == head;
    assert SignLength(head) == 0 && head[0..] == head;
    SpanDigitsOver(head, []);
    assert head + [] == head;
    assert SubjectDigits(head) == head;
    assert head[0] == d[0] && d[0] != ZERO;
    LeadingDigitBound(head);
    assert Pow10(5) == 100000;
  }

  /** The decimal text of a number below 10^6 followed by '\n' is kept whole,
      except for the '\n' when the number has six digits. */
  lemma {:induction false} NumberKept(n: nat) returns (tail: seq<byte>)
    requires n < 1000000
    ensures var d := Decimal(n);
            && (tail == [] || tail == [LF])
            && (forall i :: 0 <= i < |d| ==> d[i] != NO_BYTE && d[i] != LF)
            && Kept([], d + [LF], LINE_ROOM) == d + tail
  {
    var d := Decimal(n);
    DecimalLength(n, 6);
    assert [] + (d + [LF]) == d + [LF];
    if |d| < LINE_ROOM {
      tail := [LF];
      assert (d + [LF])[..|d| + 1] == d + [LF];
    } else {
      tail := [];
      assert (d + [LF])[..LINE_ROOM] == d + [];
    }
  }

  /** `strtol` reads back the decimal text of n, whether or not a '\n' follows. */
  lemma {:induction false} NumberText(n: nat, tail: seq<byte>)
    requires tail == [] || tail == [LF]
    ensures StrToL(CString(Decimal(n) + tail)) == n
  {
    var d := Decimal(n);
    var text := d + tail;
    assert forall i :: 0 <= i < |text| ==> text[i] != NUL by {
      forall i | 0 <= i < |text| ensures text[i] != NUL {
        if i < |d| { assert text[i] == d[i]; }
      }
    }
    CStringWhole(text);
    assert text[0] == d[0];
    SkipSpaceOver([], text);
    assert [] + text == text;
    assert SignLength(text) == 0 && text[0..] == text;
    SpanDigitsOver(d, tail);
    DecimalRoundTrip(n);
  }

  class ConsoleTask {
    /** The local `buffer` of the task. */
    const buffer: array<byte>
    /** The local `buffer_ix`: how many bytes the buffer holds. */
    var bufferIx: nat
    /** The shared `led_state_interval` that the blink task reads. */
    var interval: int

    /** The buffer holds the collected line followed by NUL bytes only, and the
        interval is always one a line can set or the initial one. */
    ghost predicate Valid()
      reads this, buffer
    {
      && buffer.Length == BUFFER_SIZE
      && bufferIx <= LINE_ROOM
      && (forall i :: bufferIx <= i < BUFFER_SIZE ==> buffer[i] == NUL)
      && MIN_DELAY <= interval <= MAX_DELAY
    }

    /** The bytes collected since the buffer was last cleared. */
    ghost function Line(): seq<byte>
      reads this, buffer
      requires Valid()
    {
      buffer[..bufferIx]
    }

    constructor ()
      ensures Valid() && fresh(buffer)
      ensures interval == INITIAL_INTERVAL && Line() == []
    {
      buffer := new byte[BUFFER_SIZE](_ => NUL);
      bufferIx := 0;
      interval := INITIAL_INTERVAL;
    }

    /** The start of each round of the outer loop: index 0 and an all-zero
        buffer (`memset(buffer, 0, buffer_size)`). */
    method StartLine()
      requires buffer.Length == BUFFER_SIZE && MIN_DELAY <= interval <= MAX_DELAY
      modifies this, buffer
      ensures Valid() && interval == old(interval)
      ensures bufferIx == 0 && buffer[..] == seq(BUFFER_SIZE, _ => NUL)
    {
      bufferIx := 0;
      for i := 0 to BUFFER_SIZE
        modifies buffer
        invariant forall j :: 0 <= j < i ==> buffer[j] == NUL
      {
        buffer[i] := NUL;
      }
    }

    /** One pass of the inner loop with the byte `getchar` returned. */
    method ReadKey(c: byte) returns (echo: Option<byte>, written: Option<int>)
      requires Valid()
      modifies this, buffer
      ensures Valid()
      ensures KeyStep(old(Line()), c) == KeyResult(echo, written, Line())
      ensures interval == if written.Some? then written.value else old(interval)
    {
      echo, written := None, None;
      ghost var before := Line();
      if c != NO_BYTE {
        if bufferIx < BUFFER_SIZE - 1 {
          buffer[bufferIx] := c;
          bufferIx := bufferIx + 1;
          assert Line() == before + [c];
        }
        if c == LF {
          assert buffer[..] == Line() + buffer[bufferIx..];
          CStringPadded(Line(), buffer[bufferIx..]);
          var v := StrToL(CString(buffer[..]));
          if v < MIN_DELAY {
            v := MIN_DELAY;
          } else if v > MAX_DELAY {
            v := MAX_DELAY;
          }
          interval := v;
          written := Some(v);
        } else {
          echo := Some(c);
        }
      }
    }

    /** The inner loop over the bytes `keys`: it stops after the first '\n'
        or when the bytes run out. */
    method CaptureLine(keys: seq<byte>) returns (echo: seq<byte>, written: Option<int>, consumed: nat)
      requires Valid()
      modifies this, buffer
      ensures Valid()
      ensures CaptureFrom(old(Line()), keys) == Capture(echo, written, Line(), consumed)
      ensures interval == if written.Some? then written.value else old(interval)
    {
      echo, written, consumed := [], None, 0;
      while consumed < |keys| && written.None?
        invariant Valid() && consumed <= |keys|
        invariant written.None? ==> interval == old(interval)
        invariant written.None? ==>
          CaptureFrom(old(Line()), keys) == After(echo, consumed, CaptureFrom(Line(), keys[consumed..]))
        invariant written.Some? ==>
          CaptureFrom(old(Line()), keys) == Capture(echo, written, Line(), consumed)
          && interval == written.value
        decreases |keys| - consumed
      {
        var c := keys[consumed];
        ghost var before := Line();
        assert keys[consumed..][1..] == keys[consumed + 1..];
        ghost var echoBefore := echo;
        var e;
        e, written := ReadKey(c);
        ghost var s := KeyStep(before, c);
        echo := echo + if e.Some? then [e.value] else [];
        consumed := consumed + 1;
        assert echo == echoBefore + Echoed(s);
        if written.None? {
          AfterAfter(echoBefore, consumed - 1, Echoed(s), 1, CaptureFrom(Line(), keys[consumed..]));
        }
      }
      if written.None? {
        assert keys[consumed..] == [];
      }
    }

    /** One round of the outer loop: clear the buffer, then capture a line. */
    method Round(keys: seq<byte>) returns (echo: seq<byte>, written: Option<int>, consumed: nat)
      requires Valid()
      modifies this, buffer
      ensures Valid()
      ensures CaptureFrom([], keys) == Capture(echo, written, Line(), consumed)
      ensures interval == if written.Some? then written.value else old(interval)
    {
      StartLine();
      assert Line() == [];
      echo, written, consumed := CaptureLine(keys);
    }
  }
}
