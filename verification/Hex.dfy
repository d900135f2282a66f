/** Hexadecimal text as the PDAP driver writes it (printf's `%x`) and reads it
    back (`strtol(s, NULL, 16)` assigned to a `uint32_t`). */
module Hex {

  /** 2^32: the modulus of a C `uint32_t`. */
  const U32: int := 0x1_0000_0000
  /** The range of a C `long` on an LP64 target. */
  const LongMax: int := 0x7FFF_FFFF_FFFF_FFFF
  const LongMin: int := -0x8000_0000_0000_0000

  /** A C `uint32_t`. */
  type Word = x: int | 0 <= x < 0x1_0000_0000
  /** A C `int` (32 bits). */
  type Int32 = x: int | -0x8000_0000 <= x < 0x8000_0000
  /** A C `uint8_t`. */
  type Byte = x: int | 0 <= x < 0x100

  predicate IsHexDigit(c: char) {
    '0' <= c <= '9' || 'a' <= c <= 'f' || 'A' <= c <= 'F'
  }

  predicate IsLowerHexDigit(c: char) {
    '0' <= c <= '9' || 'a' <= c <= 'f'
  }

  predicate AllHexDigits(s: string) {
    forall i :: 0 <= i < |s| ==> IsHexDigit(s[i])
  }

  function DigitValue(c: char): (v: nat)
    requires IsHexDigit(c)
    ensures v < 16
  {
    if '0' <= c <= '9' then c as int - '0' as int
    else if 'a' <= c <= 'f' then c as int - 'a' as int + 10
    else c as int - 'A' as int + 10
  }

  /** The lower-case digit `%x` prints for `d`. */
  function Digit(d: nat): (c: char)
    requires d < 16
    ensures IsLowerHexDigit(c) && DigitValue(c) == d
  {
    if d < 10 then ('0' as int + d) as char else ('a' as int + d - 10) as char
  }

  /** `%x`: lower-case digits, no prefix, no leading zero. */
  function Format(n: nat): (s: string)
    ensures |s| > 0
    ensures forall i :: 0 <= i < |s| ==> IsLowerHexDigit(s[i])
    ensures s[0] == '0' <==> n == 0
    ensures s[0] == '0' ==> |s| == 1
    decreases n
  {
    if n < 16 then [Digit(n)] else Format(n / 16) + [Digit(n % 16)]
  }

  /** The number a run of hex digits denotes, most significant digit first. */
  function Value(s: string): nat
    requires AllHexDigits(s)
  {
    if s == [] then 0 else Value(s[..|s| - 1]) * 16 + DigitValue(s[|s| - 1])
  }

  function Pow16(k: nat): (p: nat)
    ensures p >= 1
  {
    if k == 0 then 1 else 16 * Pow16(k - 1)
  }

  /** Reading back what `%x` printed gives the number again. */
  lemma {:induction false} ValueOfFormat(n: nat)
    ensures Value(Format(n)) == n
  {
    if n >= 16 {
      var s := Format(n);
      assert s[..|s| - 1] == Format(n / 16);
      ValueOfFormat(n / 16);
    }
  }

  /** A number below 16^k prints in at most k digits. */
  lemma {:induction false} FormatLength(n: nat, k: nat)
    requires 1 <= k && n < Pow16(k)
    ensures |Format(n)| <= k
  {
    if n >= 16 {
      FormatLength(n / 16, k - 1);
    }
  }

  /** A `uint32_t` prints in at most eight digits. */
  lemma FormatWordLength(w: Word)
    ensures |Format(w)| <= 8
  {
    assert Pow16(8) == U32;
    FormatLength(w, 8);
  }

  /** C's isspace in the "C" locale: space, \t, \n, \v, \f, \r. */
  predicate IsSpace(c: char) {
    c == ' ' || '\t' <= c <= '\r'
  }

  /** What follows the leading white space. */
  function SkipSpace(s: string): string {
    if s != [] && IsSpace(s[0]) then SkipSpace(s[1..]) else s
  }

  /** Skipping white space leaves a suffix that does not start with white
      space, and all it drops is white space. */
  lemma {:induction false} SkipSpaceShape(s: string)
    ensures var r := SkipSpace(s);
      |r| <= |s| && r == s[|s| - |r|..]
      && (r != [] ==> !IsSpace(r[0]))
      && forall i :: 0 <= i < |s| - |r| ==> IsSpace(s[i])
  {
    if s != [] && IsSpace(s[0]) {
      var t := s[1..];
      SkipSpaceShape(t);
      var r := SkipSpace(t);
      assert t[|t| - |r|..] == s[|s| - |r|..];
      forall i | 0 <= i < |s| - |r|
        ensures IsSpace(s[i])
      {
        if i > 0 {
          assert s[i] == t[i - 1];
        }
      }
    }
  }

  /** The hex digits at the start of `s`. */
  function DigitRun(s: string): (r: string)
    ensures AllHexDigits(r)
  {
    if s != [] && IsHexDigit(s[0]) then [s[0]] + DigitRun(s[1..]) else []
  }

  /** The run is the longest prefix of `s` made of hex digits. */
  lemma {:induction false} DigitRunLongest(s: string)
    ensures var r := DigitRun(s);
      |r| <= |s| && r == s[..|r|] && (|r| < |s| ==> !IsHexDigit(s[|r|]))
  {
    if s != [] && IsHexDigit(s[0]) {
      DigitRunLongest(s[1..]);
    }
  }

  /** What follows an optional leading sign; whether the sign was '-'. */
  function SkipSign(t: string): (string, bool) {
    if t != [] && (t[0] == '-' || t[0] == '+') then (t[1..], t[0] == '-') else (t, false)
  }

  /** What follows an optional "0x" or "0X". */
  function SkipHexPrefix(u: string): string {
    if |u| >= 2 && u[0] == '0' && (u[1] == 'x' || u[1] == 'X') then u[2..] else u
  }

  /** A signed magnitude clamped to the range of `long`, as strtol reports
      overflow. */
  function Saturate(m: nat, negative: bool): (v: int)
    ensures LongMin <= v <= LongMax
    ensures !negative && m <= LongMax ==> v == m
    ensures !negative && m > LongMax ==> v == LongMax
    ensures negative && m <= -LongMin ==> v == -(m as int)
    ensures negative && m > -LongMin ==> v == LongMin
  {
    if negative then (if m > -LongMin then LongMin else -(m as int))
    else (if m > LongMax then LongMax else m)
  }

  /** strtol(s, NULL, 16) on an LP64 target: leading white space, an optional
      sign, an optional "0x"/"0X", then the longest run of hex digits (none
      gives 0); a magnitude beyond the range of `long` saturates. */
  function Strtol16(s: string): (v: int)
    ensures LongMin <= v <= LongMax
  {
    var (u, negative) := SkipSign(SkipSpace(s));
    Saturate(Value(DigitRun(SkipHexPrefix(u))), negative)
  }

  /** Conversion of a C integer to `uint32_t`: adding or removing 2^32
      until the value is in range. The result is the reduction modulo
      2^32. */
  function ToWord(x: int): (w: Word)
    ensures w == x % U32
    decreases if x < 0 then U32 - x else x
  {
    if x < 0 then ToWord(x + U32)
    else if x < U32 then x
    else ToWord(x - U32)
  }

  /** `w++` on a `uint32_t`: the largest value wraps around to 0. */
  function Inc(w: Word): (r: Word)
    ensures r == (w + 1) % U32
    ensures r != w
  {
    if w == U32 - 1 then 0 else w + 1
  }

  /** The bits of an `int` read as a `uint32_t` (two's complement), as `%x`
      prints a negative `int`. */
  function Unsigned(x: Int32): (r: Word)
    ensures r == x % U32
    ensures 0 <= x ==> r == x
  {
    if x < 0 then x + U32 else x
  }

  /** Reading an `int` as unsigned loses nothing: distinct values print
      differently. */
  lemma UnsignedInjective(x: Int32, y: Int32)
    ensures Unsigned(x) == Unsigned(y) ==> x == y
  {
  }

  /** `uint32_t val = strtol(s, NULL, 16);` */
  function ParseWord(s: string): (w: Word)
    ensures w == Strtol16(s) % U32
  {
    ToWord(Strtol16(s))
  }

  /** strtol on a run of hex digits skips nothing: there is no white space,
      no sign and no "0x" prefix ('x' is not a hex digit), and the digit run
      is the whole string. */
  lemma ScanOfDigits(s: string)
    requires s != [] && AllHexDigits(s)
    ensures SkipSign(SkipSpace(s)) == (s, false)
    ensures SkipHexPrefix(s) == s && DigitRun(s) == s
  {
    assert SkipSpace(s) == s;
    DigitRunAll(s);
  }

  /** strtol on a run of hex digits: a value beyond the range of `long`
      saturates to LONG_MAX, whose low 32 bits are all ones; otherwise the
      value is kept modulo 2^32. */
  lemma ParseDigitsWide(s: string)
    requires s != [] && AllHexDigits(s)
    ensures Value(s) <= LongMax ==> ParseWord(s) == Value(s) % U32
    ensures Value(s) > LongMax ==> ParseWord(s) == U32 - 1
  {
    ScanOfDigits(s);
    assert LongMax % U32 == U32 - 1;
  }

  /** strtol on a run of hex digits reads its value when it fits a
      `uint32_t`. */
  lemma ParseDigits(s: string)
    requires s != [] && AllHexDigits(s)
    requires Value(s) < U32
    ensures ParseWord(s) == Value(s)
  {
    ParseDigitsWide(s);
    SmallMod(Value(s));
  }

  lemma SmallMod(x: int)
    requires 0 <= x < U32
    ensures x <= LongMax && x % U32 == x
  {
  }

  /** `%x` prints only hex digits, and at least one. */
  lemma FormatDigits(n: nat)
    ensures Format(n) != [] && AllHexDigits(Format(n))
  {
  }

  /** A value the peer prints with `%x` is read back unchanged. */
  lemma ParseFormat(w: Word)
    ensures ParseWord(Format(w)) == w
  {
    ValueOfFormat(w);
    FormatDigits(w);
    ParseDigits(Format(w));
  }

  lemma {:induction false} DigitRunAll(s: string)
    requires AllHexDigits(s)
    ensures DigitRun(s) == s
  {
    if s != [] {
      DigitRunAll(s[1..]);
    }
  }

  /** The largest C `long` on an ILP32 target (32-bit Linux, such as 32-bit
      ARM); the smallest is one below its negation. */
  const Long32Max: int := 0x7FFF_FFFF

  /** strtol(s, NULL, 16) where `long` has 32 bits: the same scan as
      Strtol16, with the magnitude saturating to the narrower range. */
  function Strtol16Ilp32(s: string): (v: int)
    ensures -Long32Max - 1 <= v <= Long32Max
  {
    var (u, negative) := SkipSign(SkipSpace(s));
    var m := Value(DigitRun(SkipHexPrefix(u)));
    if negative then (if m > Long32Max + 1 then -Long32Max - 1 else -(m as int))
    else (if m > Long32Max then Long32Max else m)
  }

  /** `uint32_t val = strtol(s, NULL, 16);` on an ILP32 target. */
  function ParseWordIlp32(s: string): (w: Word)
    ensures w == Strtol16Ilp32(s) % U32
  {
    ToWord(Strtol16Ilp32(s))
  }

  /** Where `long` has 32 bits, every answer from 0x80000000 up is stored
      as 0x7fffffff: "deadbeef" reads as 0x7fffffff, where an LP64 target
      reads 0xdeadbeef. */
  lemma ParseIlp32Clamps(w: Word)
    requires w >= 0x8000_0000
    ensures ParseWordIlp32(Format(w)) == Long32Max
    ensures ParseWord(Format(w)) == w
  {
    ValueOfFormat(w);
    FormatDigits(w);
    ScanOfDigits(Format(w));
    ParseFormat(w);
  }

  /** strtoul(s, NULL, 16) where `unsigned long` has 32 bits: the same
      scan; a magnitude beyond ULONG_MAX saturates to it, and a '-' negates
      modulo 2^32. */
  function Strtoul16Ilp32(s: string): Word {
    var (u, negative) := SkipSign(SkipSpace(s));
    var m := Value(DigitRun(SkipHexPrefix(u)));
    if m >= U32 then U32 - 1 else if negative then ToWord(-(m as int)) else m
  }

  /** With strtoul every `%x` answer reads back unchanged even where `long`
      has 32 bits, agreeing with the LP64 reading used in the rest of the
      model. */
  lemma ParseUnsignedFormat(w: Word)
    ensures Strtoul16Ilp32(Format(w)) == w == ParseWord(Format(w))
  {
    ValueOfFormat(w);
    FormatDigits(w);
    ScanOfDigits(Format(w));
    ParseFormat(w);
  }
}
