# Blinking an LED at a rate typed on the console

Two FreeRTOS programs for an ESP32 are modelled here. Each has one task that
blinks an LED and one task that reads the console and sets the blink rate.

- **05-queues.** The console task (TaskA) collects bytes into an 81-byte
  line buffer and echoes each one. When it sees `'\n'` or `'\r'` it scans the
  line with `sscanf("%s %u")`. A line whose word is exactly `delay` and that
  carries a number sends the number on queue1; any other line is reported as
  invalid. The blink task (TaskB) polls queue1 once per blink cycle and clamps
  what it receives into [1, 10000]. It counts its cycles in a `uint32_t`, and
  every 100 cycles it offers the text `Blink counter : N` to queue2. The
  console task shows those texts. Both queues hold 3 messages. They are
  polled without waiting, and the 10-tick wait of the queue2 send is treated
  as an immediate try. Because 2^32 is not a multiple of 100, the cadence of
  the texts breaks once when the counter wraps.
- **03-blink-led-with-tasks.** The console task (TaskConsole) clears a 7-byte
  buffer at the start of every line and keeps at most 6 bytes. On `'\n'` it
  converts the buffer with `strtol`, clamps the value into [200, 10000] and
  writes it to the shared interval. The blink task (TaskBlink) sets the LED to
  a remembered level and then flips that level.

Modules:

- `CText` (`ctext.dfy`): the C library pieces the programs rely on.
  - NUL-terminated strings.
  - `isspace` in the "C" locale.
  - The decimal subject sequence of `strtol`/`strtoul` (ISO C11 section 7.22.1.4).
  - `sscanf` with `"%s %u"` (ISO C11 section 7.21.6.2).
  - The text `sprintf("%u")` writes.
- `Bounds` (`bounds.dfy`): clamping into a range.
- `Queues` (`queues.dfy`): a bounded FIFO queue with non-blocking send and receive. It is a class over a `seq`, specified by pure functions.
- `QueueBlink` and `QueueConsole` (`queue_blink.dfy`, `queue_console.dfy`): the two tasks of 05-queues. Each is a class whose method is one pass of the task loop, proved against pure step functions.
- `RateConsole` and `RateBlink` (`rate_console.dfy`, `rate_blink.dfy`): the two tasks of 03-blink-led-with-tasks. The console buffer is an `array`, the inner loop is a `while` loop, and the `memset` is a `for` loop.

The I/O calls become parameters and results:
- `getchar` becomes the byte argument of a step.
- `putchar` becomes the echoed byte.
- `printf` of a queued text becomes the text that was received.
- An `ESP_LOG` error becomes a report value.
- The write to `led_state_interval` becomes the returned interval and the task's `interval` field.

## Model

| member | source | states |
|---|---|---|
| CText.CStringIsPrefixToNul | 05-queues/main.c:137-140 | the string `sscanf` and the error report see is the longest NUL-free prefix of the buffer; when it is shorter than the buffer, a NUL follows it |
| CText.CStringWhole | 05-queues/main.c:137-140 | a line without a NUL byte is seen whole |
| CText.SkipSpaceDropsLeadingSpace | 05-queues/main.c:140 | skipping white space drops exactly the leading run of `isspace` bytes and leaves a suffix that does not start with one |
| CText.SkipSpaceEmpty | 05-queues/main.c:140 | nothing is left after skipping white space exactly when the input is all white space |
| CText.SpanTokenIsLongestRun | 05-queues/main.c:140 | `%s` takes the longest run of non-white-space bytes, stopping at white space or at the end |
| CText.SpanDigitsIsLongestRun | 03-blink-led-with-tasks/main.c:84 | the digits converted are the longest run of decimal digits, stopping at a non-digit or at the end |
| CText.DecimalRoundTrip | 05-queues/main.c:86 | the decimal text `%u` prints reads back as the same number |
| CText.DecimalLength | 05-queues/main.c:86 | a number below 10^k prints in at most k digits |
| CText.Decimal | 05-queues/main.c:86 | the text `%u` prints is non-empty, all digits, and starts with '0' only for zero |
| CText.DigitsValue | 03-blink-led-with-tasks/main.c:84 | k digits denote a value below 10^k |
| CText.StrToL | 03-blink-led-with-tasks/main.c:84 | `strtol` of an s-byte string is strictly between -10^s and 10^s, and is 0 when there is no subject sequence |
| CText.ScanUnsigned | 05-queues/main.c:140 | `%u` succeeds exactly when digits follow the optional sign; without a sign its value is the number, saturated at 2^32-1 |
| CText.ScanTagAndUnsigned | 05-queues/main.c:140 | `sscanf` returns EOF exactly on a blank line; otherwise the tag it stores is a non-empty word without white space |
| CText.LeadingDigitBound | 03-blink-led-with-tasks/main.c:84 | k digits that do not start with '0' denote at least 10^(k-1) |
| CText.DecimalLongerThan | 05-queues/main.c:86 | a number of at least 10^k prints in more than k digits |
| CText.StripDropsPolls | 05-queues/main.c:116-118 | removing the 0xFF polls leaves no 0xFF, adds no byte, and leaves a stream without polls unchanged |
| CText.KeptStep | 05-queues/main.c:126-130 | one more typed byte is appended while the buffer has room and dropped once it is full |
| Bounds.Clamp | 05-queues/main.c:69-71 | the clamped value lies in [lo, hi]; it is the input, or lo for an input below the range, or hi for one above it |
| Bounds.ClampFixesRange | 03-blink-led-with-tasks/main.c:85-86 | clamping leaves a value unchanged exactly when it is in range |
| Bounds.ClampIdempotent | 03-blink-led-with-tasks/main.c:85-86 | clamping a clamped value changes nothing |
| Bounds.ClampMonotone | 03-blink-led-with-tasks/main.c:85-86 | a larger request never gives a smaller interval |
| Queues.Send | 05-queues/main.c:144-145 | a send succeeds exactly when the queue has room, and then appends the message at the back; a failed send leaves the queue as it was |
| Queues.SendEachKeepsFirst | 05-queues/main.c:144-145 | of a run of sends, exactly the first ones that fit are kept, in order, and every later send fails |
| Queues.FourthSendRefused | 05-queues/main.c:31-32 | queue1 and queue2 hold three messages each: four sends to an empty one with no receive between keep the first three and refuse the fourth |
| Queues.Receive | 05-queues/main.c:111-114 | a receive succeeds exactly when the queue is non-empty and removes the oldest message; a failed receive leaves the queue as it was |
| Queues.ReceiveInSendOrder | 05-queues/main.c:66 | messages are received in the order they were sent |
| Queues.BoundedQueue.constructor | 05-queues/main.c:168-174 | a new queue is empty and has the given capacity |
| Queues.BoundedQueue.TrySend | 05-queues/main.c:144-145 | the new contents and the result are those of `Send` on the old contents, and the queue stays within capacity |
| Queues.BoundedQueue.TryReceive | 05-queues/main.c:111-114 | the message and the new contents are those of `Receive` on the old contents |
| QueueBlink.NextCounter | 05-queues/main.c:81 | the counter goes up by one, wrapping from 2^32-1 to 0 |
| QueueBlink.CounterCountsCycles | 05-queues/main.c:81 | after k cycles the counter is (c + k) mod 2^32 |
| QueueBlink.Notification | 05-queues/main.c:85-86 | the status text fits the 81-byte message buffer with its NUL, starts with `Blink counter : ` and ends with digits that read back as the counter |
| QueueBlink.ApplyCommand | 05-queues/main.c:66-72 | without a message the interval is unchanged; a received value below 1 becomes 1, one above 10000 becomes 10000, and any other is taken as is |
| QueueBlink.IntervalIsLatestCommand | 05-queues/main.c:66-72 | over any run of cycles the interval is the clamped value of the latest command, or the starting one when none arrived, and it never leaves [1, 10000] |
| QueueBlink.NotificationCadence | 05-queues/main.c:81-91 | without wrap-around, the cycles from counter c to c + k notify once for each multiple of 100 in (c, c + k], and each notification carries that multiple |
| QueueBlink.NotifiedCountersSplit | 05-queues/main.c:81-91 | the notifications of a run of cycles are those of its first part followed by those of the rest |
| QueueBlink.WrapNotifiesEarly | 05-queues/main.c:81-83 | across the wrap-around, the notification carrying 4294967200 is followed by none for 95 cycles and then by one carrying 0, only 96 cycles later instead of 100 |
| QueueBlink.BlinkTask.constructor | 05-queues/main.c:57-59 | the task starts with interval 1000 and counter 0 |
| QueueBlink.BlinkTask.Cycle | 05-queues/main.c:63-92 | one pass polls queue1 and applies `ApplyCommand`, increments the counter, and on a multiple of 100 sends the status text to queue2; it reports whether the text was queued or dropped, and otherwise leaves queue2 alone |
| QueueConsole.ParseDelayCommand | 05-queues/main.c:140-141 | a blank line is never a command, and a command line starts with `delay` after its leading white space; DelayCommandShape and DelayCommandAccepted state the whole acceptance test |
| QueueConsole.DelayCommandAccepted | 05-queues/main.c:140-141 | `delay`, surrounded by white space and followed by the decimal text of n, is accepted with argument n whatever non-digit bytes follow |
| QueueConsole.DelayCommandShape | 05-queues/main.c:140-141 | a line is accepted exactly when, after leading white space, it has the word `delay`, then white space, then an optionally signed digit run; the argument is what `%u` makes of that number |
| QueueConsole.Complete | 05-queues/main.c:135-150 | a finished buffer never leaves the line pending; it is a command exactly when its text up to the first NUL is `delay`, white space and a number after optional white space, with the number `%u` reads as argument; otherwise it is rejected and reported with the longest NUL-free prefix of the buffer |
| QueueConsole.ReadStep | 05-queues/main.c:116-153 | 0xFF changes nothing and echoes nothing; every other byte is echoed; `'\n'` and `'\r'` finish the line and empty the buffer; other bytes are appended while fewer than 80 are held and dropped after that |
| QueueConsole.Feed | 05-queues/main.c:109-157 | reading bytes one by one never echoes 0xFF, echoes at most one byte per byte read and finishes at most one line per byte read, and the buffer stays within 80 bytes; FeedEchoes, FeedAppend, TypedLinePolled, FeedNoLineEnd and TwoLines state what the loop does with a whole input stream, including a tail without a line end |
| QueueConsole.FeedEchoes | 05-queues/main.c:116-133 | the echo of the whole input is the input with its 0xFF polls removed, in order |
| QueueConsole.FeedAppend | 05-queues/main.c:109-157 | reading a + b is reading a and then reading b from the line a left: echoes and finished lines follow one another |
| QueueConsole.TypedLinePolled | 05-queues/main.c:116-153 | a line typed with 0xFF polls mixed in echoes every real byte and the terminator, finishes exactly one line holding the first 80 real bytes, and leaves the buffer empty |
| QueueConsole.FeedNoLineEnd | 05-queues/main.c:116-133 | bytes without a line end, polls mixed in, echo their real bytes, finish no line and leave the buffer holding its old line followed by the first real bytes that fit in 80 |
| QueueConsole.TwoLines | 05-queues/main.c:116-153 | two lines typed one after the other finish as two separate lines, each holding its own first 80 real bytes, and leave the buffer empty |
| QueueConsole.TypedLine | 05-queues/main.c:116-153 | typing a line and a terminator echoes every byte once and finishes exactly one line, which holds the first 80 bytes typed, and leaves the buffer empty |
| QueueConsole.DelayTextBytes | 05-queues/main.c:126 | the text `delay N` fits the buffer and holds no NUL, no terminator and no 0xFF |
| QueueConsole.DelayTextCommand | 05-queues/main.c:137-141 | the finished line `delay N` is the command with argument N |
| QueueConsole.TypedDelayCommand | 05-queues/main.c:116-146 | typing `delay N` and a terminator on an empty buffer echoes every byte and finishes one line, the command with argument N |
| QueueConsole.ConsoleTask.constructor | 05-queues/main.c:99-105 | the task starts with an all-NUL 81-byte buffer, index 0 and no pending line |
| QueueConsole.ConsoleTask.ReadByte | 05-queues/main.c:116-154 | the echo, the collected line and the outcome are those of `ReadStep` and `Complete`; the buffer changes only at the old index (the byte, or the terminating NUL) |
| QueueConsole.ConsoleTask.Iterate | 05-queues/main.c:109-157 | one pass first receives a status text from queue2, then handles the byte; a command is sent on queue1 (sent or failed), an invalid line is reported and leaves queue1 alone |
| RateConsole.LineInterval | 03-blink-led-with-tasks/main.c:84-87 | the interval a line sets lies in [200, 10000]; it is `strtol` of the line clamped into that range, and 200 for a line without digits |
| RateConsole.ConversionFits | 03-blink-led-with-tasks/main.c:17 | at most six bytes are converted, so the value lies strictly between -10^6 and 10^6 and `strtol` cannot overflow |
| RateConsole.CStringPadded | 03-blink-led-with-tasks/main.c:61 | the zeros behind the collected bytes do not change what `strtol` sees |
| RateConsole.KeyStep | 03-blink-led-with-tasks/main.c:71-95 | 0xFF is ignored; any other byte, `'\n'` included, is stored while fewer than 6 are held; every byte but `'\n'` is echoed; `'\n'` writes the interval of the stored line |
| RateConsole.CaptureFrom | 03-blink-led-with-tasks/main.c:69-97 | the inner loop never holds more than 6 bytes and reads no more bytes than it is given; TypedLinePolled, CaptureStops and CaptureNoLF state what it does with a whole key stream: the echo, the interval, the bytes read and the line left, with or without a `'\n'` |
| RateConsole.TypedLinePolled | 03-blink-led-with-tasks/main.c:69-95 | a line typed with 0xFF polls mixed in echoes its real bytes but not the `'\n'`, keeps its first six real bytes and writes the interval of what was kept, after reading every byte up to the `'\n'` |
| RateConsole.CaptureStops | 03-blink-led-with-tasks/main.c:81-89 | the loop stops at the first `'\n'`: bytes after it are not read and change nothing |
| RateConsole.CaptureNoLF | 03-blink-led-with-tasks/main.c:69-95 | without a `'\n'` every byte is read, the real ones are echoed, no interval is written, and the buffer holds its old line followed by the first real bytes that fit in six |
| RateConsole.TypedLine | 03-blink-led-with-tasks/main.c:69-95 | typing a line and `'\n'` echoes the line, not the `'\n'`, keeps its first six bytes and writes the interval of what was kept |
| RateConsole.NumberText | 03-blink-led-with-tasks/main.c:84 | `strtol` reads back the decimal text of n, whether or not a `'\n'` follows |
| RateConsole.TypedNumber | 03-blink-led-with-tasks/main.c:69-89 | typing any number and `'\n'` on a fresh buffer sets the number clamped into [200, 10000], including numbers longer than the buffer |
| RateConsole.LongNumberText | 03-blink-led-with-tasks/main.c:76-87 | a number of seven digits or more is cut to its first six, and `strtol` of those is above 10000 |
| RateConsole.ConsoleTask.constructor | 03-blink-led-with-tasks/main.c:26 | the shared interval starts at 1000 and the buffer is empty |
| RateConsole.ConsoleTask.StartLine | 03-blink-led-with-tasks/main.c:59-61 | each round starts with index 0 and an all-zero buffer |
| RateConsole.ConsoleTask.ReadKey | 03-blink-led-with-tasks/main.c:71-95 | the echo, the written interval and the new line are those of `KeyStep`; the shared interval changes only on `'\n'` and stays in [200, 10000] |
| RateConsole.ConsoleTask.CaptureLine | 03-blink-led-with-tasks/main.c:69-97 | the loop's echo, interval, line and bytes read are those of `CaptureFrom` |
| RateConsole.ConsoleTask.Round | 03-blink-led-with-tasks/main.c:57-97 | one round of the outer loop behaves as `CaptureFrom` on an empty line |
| RateBlink.Toggle | 03-blink-led-with-tasks/main.c:48 | the new level is ON or OFF, and differs from an old level that was ON or OFF |
| RateBlink.LevelsAlternate | 03-blink-led-with-tasks/main.c:43-48 | the levels set are OFF, ON, OFF, ...: OFF on even passes, ON on odd ones, never the same twice in a row |
| RateBlink.BlinkTask.constructor | 03-blink-led-with-tasks/main.c:43 | the remembered level starts OFF |
| RateBlink.BlinkTask.Step | 03-blink-led-with-tasks/main.c:45-50 | each pass sets OFF on even-numbered passes and ON on odd ones, and appends that level to the history |

## Left out

- FreeRTOS itself is not modelled: the scheduler, `vTaskDelay`, task creation and `app_main`. That includes the failed-queue-creation exit (05-queues/main.c:160-179) and the task creation and deletion (03-blink-led-with-tasks/main.c:101-129).
- Time is not modelled. The delays between passes are left out. The 10-tick wait of the queue2 send (05-queues/main.c:87) is treated as an immediate try.
- Concurrency is left out. Queues change only through the modelled sends and receives. Cross-task visibility of the `volatile` `led_state_interval` is left out; the console task's write is its result.
- GPIO is left out. In 05-queues, `Cycle` does not model switching the LED on and off or the two `vTaskDelay(interval)` calls between (05-queues/main.c:75-78). In 03-blink-led-with-tasks the level handed to `set_led` is the result of `Step`. The tick conversion of the interval (`/ portTICK_PERIOD_MS`) is left out.
- The `printf` prompts and `ESP_LOG` messages are left out except for what they report. An invalid line is reported with its text (05-queues/main.c:149). A failed send is reported with the argument shown by the info line before the send (05-queues/main.c:143); the error line itself (05-queues/main.c:145) prints no argument.
- `char` signedness is left out: the comparison of `getchar()` with 0xFF depends on the platform, so 0xFF is a distinct "no byte" value.
- CText.ScanUnsigned: a number too large for `%u` saturates at 2^32-1, as `strtoul` does. ISO C leaves this undefined for `sscanf`, and the model picks the common library behaviour.
- CText.ScanUnsigned: library-specific limits on field widths are left out.
- CText.StrToL: saturation at `LONG_MIN`/`LONG_MAX` is left out. Lines hold at most six bytes, so the value can never reach it (RateConsole.ConversionFits).
- QueueConsole: the value of `cmd_arg` after a failed scan is not modelled; the source never uses it.
- RateBlink.BlinkTask.Step and QueueBlink.BlinkTask.Cycle do not model the delay that follows `set_led`.
