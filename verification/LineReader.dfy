/** The response-line reader `pdap_resp`, as a function of the bytes the
    channel still holds. One call skips carriage returns, ends a line at a
    line feed, passes over whole lines that start with '#' (firmware
    diagnostics), and fails at end of stream or when the line reaches
    len-1 bytes, although len-1 bytes and the terminating NUL would still
    fit the buffer of `len` bytes. */
module LineReader {

  /** What one call yields, with the bytes left on the channel after it. */
  datatype LineResult = Line(text: string, rest: seq<char>) | Fail(rest: seq<char>)

  /** A firmware diagnostic: a line whose first byte is '#'. */
  predicate IsDiagnostic(t: string) {
    t != [] && t[0] == '#'
  }

  /** The read loop in the state where `acc` holds the bytes kept so far on
      the current line and `s` is what the channel still delivers. The
      bound test comes first in every round, before a byte is read. */
  function Scan(s: seq<char>, len: int, acc: string): (r: LineResult)
    ensures |r.rest| <= |s|
    ensures r.Line? ==> |r.rest| < |s|
    decreases |s|
  {
    if |acc| >= len - 1 then Fail(s)
    else if s == [] then Fail(s)
    else if s[0] == '\r' then Scan(s[1..], len, acc)
    else if s[0] == '\n' then
      if len > 0 && IsDiagnostic(acc) then Scan(s[1..], len, []) else Line(acc, s[1..])
    else Scan(s[1..], len, acc + [s[0]])
  }

  /** `pdap_resp(buf, len)` on a channel that will deliver `s`. Every line
      it returns consumes at least its line feed, and what is left is a
      suffix of `s`. */
  function ReadLine(s: seq<char>, len: int): (r: LineResult)
    ensures |r.rest| <= |s|
    ensures r.Line? ==> |r.rest| < |s|
  {
    Scan(s, len, [])
  }

  lemma {:induction false} ScanSuffix(s: seq<char>, len: int, acc: string)
    ensures var r := Scan(s, len, acc); r.rest == s[|s| - |r.rest|..]
    decreases |s|
  {
    if |acc| >= len - 1 || s == [] {
    } else if s[0] == '\r' {
      ScanSuffix(s[1..], len, acc);
    } else if s[0] == '\n' {
      if len > 0 && IsDiagnostic(acc) {
        ScanSuffix(s[1..], len, []);
      }
    } else {
      ScanSuffix(s[1..], len, acc + [s[0]]);
    }
  }

  /** A call only consumes bytes: what it leaves is a suffix of its input. */
  lemma ReadLineSuffix(s: seq<char>, len: int)
    ensures var r := ReadLine(s, len); r.rest == s[|s| - |r.rest|..]
  {
    ScanSuffix(s, len, []);
  }

  /** The bytes of `u` without its carriage returns. */
  function DropCR(u: seq<char>): (t: string)
    ensures '\r' !in t && |t| <= |u|
  {
    if u == [] then [] else (if u[0] == '\r' then [] else [u[0]]) + DropCR(u[1..])
  }

  lemma {:induction false} DropCRKeeps(u: seq<char>)
    requires '\r' !in u
    ensures DropCR(u) == u
  {
    if u != [] {
      DropCRKeeps(u[1..]);
      assert [u[0]] + u[1..] == u;
    }
  }

  lemma {:induction false} ScanShape(s: seq<char>, len: int, acc: string)
    requires '\r' !in acc && '\n' !in acc
    ensures var r := Scan(s, len, acc);
      r.Line? ==> |r.text| <= len - 2 && '\r' !in r.text && '\n' !in r.text && !IsDiagnostic(r.text)
    decreases |s|
  {
    if |acc| >= len - 1 || s == [] {
    } else if s[0] == '\r' {
      ScanShape(s[1..], len, acc);
    } else if s[0] == '\n' {
      if len > 0 && IsDiagnostic(acc) {
        ScanShape(s[1..], len, []);
      }
    } else {
      ScanShape(s[1..], len, acc + [s[0]]);
    }
  }

  /** A returned line fits the buffer together with its NUL (at most len-2
      bytes), holds no carriage return or line feed, and never starts with
      '#'. */
  lemma ReadLineShape(s: seq<char>, len: int)
    ensures var r := ReadLine(s, len);
      r.Line? ==> |r.text| <= len - 2 && '\r' !in r.text && '\n' !in r.text && !IsDiagnostic(r.text)
  {
    ScanShape(s, len, []);
  }

  lemma {:induction false} ScanWithoutNewline(s: seq<char>, len: int, acc: string)
    requires '\n' !in s
    ensures Scan(s, len, acc).Fail?
    decreases |s|
  {
    if |acc| >= len - 1 || s == [] {
    } else if s[0] == '\r' {
      ScanWithoutNewline(s[1..], len, acc);
    } else {
      ScanWithoutNewline(s[1..], len, acc + [s[0]]);
    }
  }

  /** End of stream before a line feed is a failure. */
  lemma ReadLineAtEof(s: seq<char>, len: int)
    requires '\n' !in s
    ensures ReadLine(s, len).Fail?
  {
    ScanWithoutNewline(s, len, []);
  }

  lemma {:induction false} ScanFirstLine(u: seq<char>, rest: seq<char>, len: int, acc: string)
    requires '\n' !in u && '\r' !in acc
    ensures var t := acc + DropCR(u);
      var r := Scan(u + "\n" + rest, len, acc);
      if |t| >= len - 1 then r.Fail? && |r.rest| > |rest|
      else if IsDiagnostic(t) then r == Scan(rest, len, [])
      else r == Line(t, rest)
    decreases |u|
  {
    var s := u + "\n" + rest;
    if |acc| >= len - 1 {
    } else if u == [] {
      assert s[0] == '\n' && s[1..] == rest;
      assert acc + DropCR(u) == acc;
    } else {
      assert s[0] == u[0] && s[1..] == u[1..] + "\n" + rest;
      if u[0] == '\r' {
        ScanFirstLine(u[1..], rest, len, acc);
        assert DropCR(u) == [] + DropCR(u[1..]) == DropCR(u[1..]);
      } else {
        ScanFirstLine(u[1..], rest, len, acc + [u[0]]);
        assert DropCR(u) == [u[0]] + DropCR(u[1..]);
        assert acc + ([u[0]] + DropCR(u[1..])) == (acc + [u[0]]) + DropCR(u[1..]);
      }
    }
  }

  /** The first line of the stream decides one call completely. With `t`
      the line without its carriage returns: if `t` does not fit the buffer
      the call fails before consuming the line feed; a diagnostic `t` is
      passed over and reading starts afresh after it; any other `t` is
      returned and the stream continues after its line feed. */
  lemma ReadLineFirstLine(u: seq<char>, rest: seq<char>, len: int)
    requires '\n' !in u
    ensures var t := DropCR(u);
      var r := ReadLine(u + "\n" + rest, len);
      if |t| >= len - 1 then r.Fail? && |r.rest| > |rest|
      else if IsDiagnostic(t) then r == ReadLine(rest, len)
      else r == Line(t, rest)
  {
    ScanFirstLine(u, rest, len, []);
    assert [] + DropCR(u) == DropCR(u);
  }

  /** A line that is neither a diagnostic nor too long is returned as it is. */
  lemma ReadLinePlain(t: string, rest: seq<char>, len: int)
    requires '\r' !in t && '\n' !in t && |t| <= len - 2 && !IsDiagnostic(t)
    ensures ReadLine(t + "\n" + rest, len) == Line(t, rest)
  {
    DropCRKeeps(t);
    ReadLineFirstLine(t, rest, len);
  }

  /** A diagnostic line that fits the buffer is invisible to the caller. */
  lemma ReadLineSkipsDiagnostic(d: string, rest: seq<char>, len: int)
    requires '\r' !in d && '\n' !in d && |d| <= len - 2 && IsDiagnostic(d)
    ensures ReadLine(d + "\n" + rest, len) == ReadLine(rest, len)
  {
    DropCRKeeps(d);
    ReadLineFirstLine(d, rest, len);
  }

  lemma {:induction false} ScanOverflow(t: string, rest: seq<char>, len: int, acc: string)
    requires '\r' !in t && '\n' !in t && |acc| + |t| == len - 1
    ensures Scan(t + rest, len, acc) == Fail(rest)
    decreases |t|
  {
    if t == [] {
      assert t + rest == rest;
    } else {
      assert (t + rest)[0] == t[0] && (t + rest)[1..] == t[1..] + rest;
      ScanOverflow(t[1..], rest, len, acc + [t[0]]);
    }
  }

  /** A line of len-1 bytes fails instead of being cut short, and the call
      stops right after those bytes. */
  lemma ReadLineOverflow(t: string, rest: seq<char>, len: int)
    requires '\r' !in t && '\n' !in t && |t| == len - 1
    ensures ReadLine(t + rest, len) == Fail(rest)
  {
    ScanOverflow(t, rest, len, []);
  }
}
