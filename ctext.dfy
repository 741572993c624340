/** Bytes and the pieces of the C library that the two console tasks lean on:
    NUL-terminated strings, `isspace` in the "C" locale, the decimal subject
    sequence shared by `strtol` and `strtoul` (ISO C11 section 7.22.1.4),
    `sscanf` with the format "%s %u" (ISO C11 section 7.21.6.2) and the
    decimal text that `sprintf("%u")` writes. */
module CText {

  /** One byte of console input or output. */
  newtype byte = x: int | 0 <= x < 256

  /** The C type uint32_t. */
  type u32 = x: int | 0 <= x < 0x1_0000_0000

  const U32_MAX: int := 0xFFFF_FFFF
  const U32_MODULUS: int := 0x1_0000_0000

  datatype Option<T> = None | Some(value: T)

  const NUL: byte := 0
  const LF: byte := 10   // '\n'
  const CR: byte := 13   // '\r'
  const SPACE: byte := 32
  const PLUS: byte := 43
  const MINUS: byte := 45
  const ZERO: byte := 48 // '0'
  /** What a non-blocking console read yields, cast to a byte, when no byte
      is waiting (EOF, -1, truncated to 8 bits). */
  const NO_BYTE: byte := 0xFF

  /** The bytes of an ASCII literal. */
  function Bytes(s: string): (r: seq<byte>)
    requires forall i :: 0 <= i < |s| ==> s[i] as int < 256
    ensures |r| == |s|
    ensures forall i :: 0 <= i < |s| ==> r[i] as int == s[i] as int
  {
    if s == [] then [] else [s[0] as int as byte] + Bytes(s[1..])
  }

  /** `isspace` in the "C" locale: space, '\t', '\n', '\v', '\f' and '\r'. */
  predicate IsSpace(c: byte) {
    c == SPACE || 9 <= c <= 13
  }

  predicate IsDigit(c: byte) {
    ZERO <= c <= ZERO + 9
  }

  predicate AllDigits(s: seq<byte>) {
    forall i :: 0 <= i < |s| ==> IsDigit(s[i])
  }

  predicate AllSpace(s: seq<byte>) {
    forall i :: 0 <= i < |s| ==> IsSpace(s[i])
  }

  function Pow10(k: nat): (r: nat)
    ensures r >= 1
  {
    if k == 0 then 1 else 10 * Pow10(k - 1)
  }

  /** The bytes of a polled input stream that are real input: `s` without
      its NO_BYTE results, in order. */
  function Strip(s: seq<byte>): (r: seq<byte>)
    ensures |r| <= |s|
  {
    if s == [] then [] else (if s[0] == NO_BYTE then [] else [s[0]]) + Strip(s[1..])
  }

  /** Strip leaves no NO_BYTE behind, adds no byte that was not there, and
      leaves a stream without NO_BYTE unchanged. */
  lemma {:induction false} StripDropsPolls(s: seq<byte>)
    ensures NO_BYTE !in Strip(s)
    ensures forall c :: c in Strip(s) ==> c in s
    ensures NO_BYTE !in s ==> Strip(s) == s
  {
    if s != [] {
      StripDropsPolls(s[1..]);
      assert s == [s[0]] + s[1..];
    }
  }

  /** The C string held by a char buffer: the bytes before the first NUL. */
  function CString(s: seq<byte>): (r: seq<byte>)
    ensures |r| <= |s|
  {
    if s == [] || s[0] == NUL then [] else [s[0]] + CString(s[1..])
  }

  /** CString(s) is the longest prefix of s without a NUL. */
  lemma {:induction false} CStringIsPrefixToNul(s: seq<byte>)
    ensures var r := CString(s);
            && r == s[..|r|]
            && NUL !in r
            && (|r| < |s| ==> s[|r|] == NUL)
    decreases |s|
  {
    if s != [] && s[0] != NUL {
      CStringIsPrefixToNul(s[1..]);
    }
  }

  /** A buffer without a NUL is a C string as a whole. */
  lemma {:induction false} CStringWhole(s: seq<byte>)
    requires NUL !in s
    ensures CString(s) == s
    decreases |s|
  {
    if s != [] {
      assert s == [s[0]] + s[1..];
      CStringWhole(s[1..]);
    }
  }

  /** What remains of s once its leading white space is skipped. */
  function SkipSpace(s: seq<byte>): (r: seq<byte>)
    ensures |r| <= |s|
  {
    if s != [] && IsSpace(s[0]) then SkipSpace(s[1..]) else s
  }

  /** SkipSpace drops exactly the leading run of white space. */
  lemma {:induction false} SkipSpaceDropsLeadingSpace(s: seq<byte>)
    ensures var r := SkipSpace(s);
            && r == s[|s| - |r|..]
            && AllSpace(s[..|s| - |r|])
            && (r == [] || !IsSpace(r[0]))
    decreases |s|
  {
    if s != [] && IsSpace(s[0]) {
      SkipSpaceDropsLeadingSpace(s[1..]);
    }
  }

  /** White space followed by text that does not start with white space. */
  lemma {:induction false} SkipSpaceOver(ws: seq<byte>, x: seq<byte>)
    requires AllSpace(ws)
    requires x == [] || !IsSpace(x[0])
    ensures SkipSpace(ws + x) == x
    decreases |ws|
  {
    if ws != [] {
      assert (ws + x)[1..] == ws[1..] + x;
      SkipSpaceOver(ws[1..], x);
    }
  }

  /** The length of the run of decimal digits at the head of s. */
  function SpanDigits(s: seq<byte>): (n: nat)
    ensures n <= |s|
  {
    if s != [] && IsDigit(s[0]) then 1 + SpanDigits(s[1..]) else 0
  }

  /** SpanDigits measures the longest run of digits at the head of s. */
  lemma {:induction false} SpanDigitsIsLongestRun(s: seq<byte>)
    ensures var n := SpanDigits(s);
            AllDigits(s[..n]) && (n == |s| || !IsDigit(s[n]))
    decreases |s|
  {
    if s != [] && IsDigit(s[0]) {
      SpanDigitsIsLongestRun(s[1..]);
    }
  }

  lemma {:induction false} SpanDigitsOver(ds: seq<byte>, x: seq<byte>)
    requires AllDigits(ds)
    requires x == [] || !IsDigit(x[0])
    ensures SpanDigits(ds + x) == |ds|
    decreases |ds|
  {
    if ds != [] {
      assert (ds + x)[1..] == ds[1..] + x;
      SpanDigitsOver(ds[1..], x);
    }
  }

  /** The length of the run of non-white-space bytes at the head of s
      (what a "%s" directive stores). */
  function SpanToken(s: seq<byte>): (n: nat)
    ensures n <= |s|
  {
    if s != [] && !IsSpace(s[0]) then 1 + SpanToken(s[1..]) else 0
  }

  /** SpanToken measures the longest run of non-white-space bytes at the head of s. */
  lemma {:induction false} SpanTokenIsLongestRun(s: seq<byte>)
    ensures var n := SpanToken(s);
            && (forall i :: 0 <= i < n ==> !IsSpace(s[i]))
            && (n == |s| || IsSpace(s[n]))
    decreases |s|
  {
    if s != [] && !IsSpace(s[0]) {
      SpanTokenIsLongestRun(s[1..]);
    }
  }

  lemma {:induction false} SpanTokenOver(tok: seq<byte>, x: seq<byte>)
    requires forall i :: 0 <= i < |tok| ==> !IsSpace(tok[i])
    requires x == [] || IsSpace(x[0])
    ensures SpanToken(tok + x) == |tok|
    decreases |tok|
  {
    if tok != [] {
      assert (tok + x)[1..] == tok[1..] + x;
      SpanTokenOver(tok[1..], x);
    }
  }

  /** The number a run of decimal digits denotes, most significant first. */
  function DigitsValue(ds: seq<byte>): (v: nat)
    requires AllDigits(ds)
    ensures v < Pow10(|ds|)
  {
    if ds == [] then 0
    else DigitsValue(ds[..|ds| - 1]) * 10 + (ds[|ds| - 1] - ZERO) as int
  }

  /** The decimal text of n without leading zeros, as `sprintf("%u")` writes it. */
  function Decimal(n: nat): (r: seq<byte>)
    ensures |r| >= 1 && AllDigits(r)
    ensures r[0] == ZERO ==> n == 0
  {
    if n < 10 then [ZERO + n as byte] else Decimal(n / 10) + [ZERO + (n % 10) as byte]
  }

  lemma {:induction false} DecimalRoundTrip(n: nat)
    ensures DigitsValue(Decimal(n)) == n
  {
    if n >= 10 {
      DecimalRoundTrip(n / 10);
      var ds := Decimal(n);
      assert ds[..|ds| - 1] == Decimal(n / 10);
    }
  }

  /** k digits that do not start with '0' denote at least 10^(k-1). */
  lemma {:induction false} LeadingDigitBound(ds: seq<byte>)
    requires AllDigits(ds) && |ds| >= 1 && ds[0] != ZERO
    ensures DigitsValue(ds) >= Pow10(|ds| - 1)
    decreases |ds|
  {
    if |ds| > 1 {
      var init := ds[..|ds| - 1];
      assert init[0] == ds[0];
      LeadingDigitBound(init);
    }
  }

  /** A number of at least 10^k prints in more than k digits. */
  lemma {:induction false} DecimalLongerThan(n: nat, k: nat)
    requires n >= Pow10(k)
    ensures |Decimal(n)| > k
  {
    DecimalRoundTrip(n);
    if |Decimal(n)| <= k {
      PowMonotone(|Decimal(n)|, k);
    }
  }

  lemma {:induction false} DecimalLength(n: nat, k: nat)
    requires 1 <= k && n < Pow10(k)
    ensures |Decimal(n)| <= k
  {
    if n >= 10 {
      DecimalLength(n / 10, k - 1);
    }
  }

  lemma SkipSpaceEmpty(s: seq<byte>)
    ensures SkipSpace(s) == [] <==> AllSpace(s)
  {
    var t := SkipSpace(s);
    SkipSpaceDropsLeadingSpace(s);
    assert s[..|s|] == s;
    if t != [] {
      assert t[0] == s[|s| - |t|];
    }
  }

  /** Length of the optional '+' or '-' that opens a subject sequence. */
  function SignLength(s: seq<byte>): (n: nat)
    ensures n <= 1 && n <= |s|
  {
    if s != [] && (s[0] == PLUS || s[0] == MINUS) then 1 else 0
  }

  /** The digits of the subject sequence of a base-10 conversion that starts
      at the head of s (white space already skipped); empty when there is none. */
  function SubjectDigits(s: seq<byte>): (ds: seq<byte>)
    ensures AllDigits(ds)
    ensures |ds| + SignLength(s) <= |s|
  {
    var t := s[SignLength(s)..];
    SpanDigitsIsLongestRun(t);
    t[..SpanDigits(t)]
  }

  predicate Negative(s: seq<byte>) {
    s != [] && s[0] == MINUS
  }

  /** `strtol(s, NULL, 10)` on a string too short to overflow a long. */
  function StrToL(s: seq<byte>): (r: int)
    ensures r < Pow10(|s|) && -r < Pow10(|s|)
    ensures SubjectDigits(SkipSpace(s)) == [] ==> r == 0
  {
    var t := SkipSpace(s);
    var ds := SubjectDigits(t);
    PowMonotone(|ds|, |s|);
    var v: int := DigitsValue(ds);
    if Negative(t) then -v else v
  }

  lemma {:induction false} PowMonotone(j: nat, k: nat)
    requires j <= k
    ensures Pow10(j) <= Pow10(k)
  {
    if j < k {
      PowMonotone(j, k - 1);
    }
  }

  /** The value a "%u" conversion stores into an unsigned int, given the input
      positioned after white space: `strtoul` on the subject sequence, negated
      modulo 2^32 after a '-', saturated to 2^32 - 1 when out of range; None
      when the input holds no subject sequence (a matching failure). */
  function ScanUnsigned(s: seq<byte>): (r: Option<u32>)
    ensures r.Some? <==> SubjectDigits(s) != []
    ensures r.Some? && !Negative(s) ==> r.value as int == Min(DigitsValue(SubjectDigits(s)), U32_MAX)
  {
    var ds := SubjectDigits(s);
    if ds == [] then None
    else
      var v := DigitsValue(ds);
      if v > U32_MAX then Some(U32_MAX)
      else if Negative(s) then Some((U32_MODULUS - v) % U32_MODULUS)
      else Some(v)
  }

  function Min(a: int, b: int): int {
    if a <= b then a else b
  }

  /** What a line buffer with room for `room` bytes holds once the bytes xs
      are typed after `line`: the first `room` bytes of line + xs. */
  function Kept(line: seq<byte>, xs: seq<byte>, room: nat): (r: seq<byte>)
    ensures |r| <= room
  {
    (line + xs)[..Min(|line| + |xs|, room)]
  }

  /** Typing one more byte appends it while there is room and drops it after. */
  lemma KeptStep(line: seq<byte>, xs: seq<byte>, room: nat)
    requires |line| <= room && xs != []
    ensures |line| < room ==> Kept(line + [xs[0]], xs[1..], room) == Kept(line, xs, room)
    ensures |line| == room ==> Kept(line, xs[1..], room) == Kept(line, xs, room)
  {
    assert (line + [xs[0]]) + xs[1..] == line + xs;
    if |line| == room {
      assert Kept(line, xs, room) == line;
      assert Kept(line, xs[1..], room) == line;
    }
  }

  /** The return value of `sscanf(s, "%s %u", tag, &arg)` together with what it stored. */
  datatype ScanResult =
    | ScanEof                             // input ended before "%s": EOF
    | ScanOne(tag: seq<byte>)             // only "%s" succeeded: 1
    | ScanTwo(tag: seq<byte>, arg: u32)   // both conversions succeeded: 2

  /** `sscanf(s, "%s %u", ...)`: "%s" skips white space and takes the
      following non-white-space run, " " skips white space, "%u" converts an
      optionally signed decimal number. It returns EOF exactly on a blank
      line; otherwise the tag it stores is a non-empty word without white
      space. */
  function ScanTagAndUnsigned(s: seq<byte>): (r: ScanResult)
    ensures r.ScanEof? <==> AllSpace(s)
    ensures !r.ScanEof? ==> r.tag != [] && forall i :: 0 <= i < |r.tag| ==> !IsSpace(r.tag[i])
  {
    var t := SkipSpace(s);
    SkipSpaceEmpty(s);
    SkipSpaceDropsLeadingSpace(s);
    SpanTokenIsLongestRun(t);
    if t == [] then ScanEof
    else
      var n := SpanToken(t);
      var rest := SkipSpace(t[n..]);
      match ScanUnsigned(rest)
      case None => ScanOne(t[..n])
      case Some(v) => ScanTwo(t[..n], v)
  }
}
