/** What the flush (`pdap_swd_run_queue`) and the start-up sync loop of
    `pdap_init` read from the channel, as functions of the bytes it still
    holds, together with the firmware replies that make them succeed. */
module Protocol {
  import opened Hex
  import opened LineReader

  /** Size of the `char buf[100]` both readers pass to `pdap_resp`. */
  const BufLen: int := 100
  /** Reply prefix of a failed register access. */
  const AckPrefix: string := "error ack "
  /** Reply prefix of the firmware's answer to a sync command. */
  const SyncPrefix: string := "sync "

  /** `strncmp(p, t, |p|) == 0` for a prefix `p` without NUL and the
      NUL-terminated line `t`: a NUL inside `t` differs from every byte of
      `p`, so comparing the raw bytes gives the same answer. */
  predicate StartsWith(t: string, p: string) {
    |p| <= |t| && t[..|p|] == p
  }

  /** The comparison is that of `strncmp`: the first |p| bytes of `t` agree
      with those of `p` one by one, a line shorter than `p` never matches,
      and whatever follows the prefix does not matter. */
  lemma StartsWithBytes(t: string, p: string, u: string)
    ensures StartsWith(t, p) <==> |p| <= |t| && forall i :: 0 <= i < |p| ==> t[i] == p[i]
    ensures StartsWith(p + u, p)
  {
    if |p| <= |t| && forall i :: 0 <= i < |p| ==> t[i] == p[i] {
      assert t[..|p|] == p;
    }
    assert (p + u)[..|p|] == p;
  }

  /** Outcome of the per-read loop: the answer lines read so far in queue
      order, whether every read was answered, and the bytes left. The
      driver stores `ParseWord` of each answer as it reads it. */
  datatype Drained = Drained(answers: seq<string>, complete: bool, rest: seq<char>)

  /** The loop over `n` queued reads: one line each; a failed read or an
      "error ack " line stops it, any other line is an answer. */
  function Drain(s: seq<char>, n: nat): (d: Drained)
    ensures |d.answers| <= n
    ensures d.complete ==> |d.answers| == n
    decreases n
  {
    if n == 0 then Drained([], true, s)
    else
      match ReadLine(s, BufLen)
      case Fail(r) => Drained([], false, r)
      case Line(t, r) =>
        if StartsWith(t, AckPrefix) then Drained([], false, r)
        else
          var d := Drain(r, n - 1);
          Drained([t] + d.answers, d.complete, d.rest)
  }

  /** Outcome of a whole flush: success, the answers read in queue order
      (those to a prefix of the queue on failure), and the bytes left. */
  datatype Flushed = Flushed(ok: bool, answers: seq<string>, rest: seq<char>)

  /** A flush of `n` queued reads: drain them, then, only if all were
      answered, read one more line, which must start with "sync " (the
      token after it is not compared). */
  function Flush(s: seq<char>, n: nat): (f: Flushed)
    ensures |f.answers| <= n
    ensures f.ok ==> |f.answers| == n
  {
    var d := Drain(s, n);
    if !d.complete then Flushed(false, d.answers, d.rest)
    else
      match ReadLine(d.rest, BufLen)
      case Fail(r) => Flushed(false, d.answers, r)
      case Line(t, r) => Flushed(StartsWith(t, SyncPrefix), d.answers, r)
  }

  datatype Synced = Synced(ok: bool, rest: seq<char>)

  /** The start-up loop: read lines until one starts with "sync "; a failed
      read ends it with failure. */
  function AwaitSync(s: seq<char>): (y: Synced)
    ensures |y.rest| <= |s|
    ensures y.ok ==> |y.rest| < |s|
    decreases |s|
  {
    match ReadLine(s, BufLen)
    case Fail(r) => Synced(false, r)
    case Line(t, r) => if StartsWith(t, SyncPrefix) then Synced(true, r) else AwaitSync(r)
  }

  /** The values `uint32_t val = strtol(buf, NULL, 16)` takes for a
      sequence of answer lines. */
  function ParseAll(ts: seq<string>): (ws: seq<Word>)
    ensures |ws| == |ts|
  {
    seq(|ts|, i requires 0 <= i < |ts| => ParseWord(ts[i]))
  }

  /** The firmware's lines, each ended by a line feed. */
  function Lines(ls: seq<string>): seq<char> {
    if ls == [] then [] else ls[0] + "\n" + Lines(ls[1..])
  }

  /** The lines `%x` prints for a sequence of values. */
  function HexLines(ws: seq<Word>): (ts: seq<string>)
    ensures |ts| == |ws|
  {
    seq(|ws|, i requires 0 <= i < |ws| => Format(ws[i]))
  }

  /** The firmware's answers to a batch of reads, one value per line. */
  function Replies(ws: seq<Word>): seq<char> {
    Lines(HexLines(ws))
  }

  /** A line that fits the 100-byte buffer and holds no line break. */
  predicate IsShortLine(t: string) {
    '\r' !in t && '\n' !in t && |t| <= BufLen - 2
  }

  /** `x` delivers the lines `ts` to successive `pdap_resp` calls and then
      holds `s`. */
  predicate ReadsAs(x: seq<char>, ts: seq<string>, s: seq<char>)
    decreases |ts|
  {
    if ts == [] then x == s
    else
      var r := ReadLine(x, BufLen);
      r.Line? && r.text == ts[0] && ReadsAs(r.rest, ts[1..], s)
  }

  lemma LinesCons(ts: seq<string>, s: seq<char>)
    requires ts != []
    ensures Lines(ts) + s == ts[0] + "\n" + (Lines(ts[1..]) + s)
  {
  }

  /** Lines that fit the buffer and are not diagnostics reach the caller
      one by one, as they were sent. */
  lemma {:induction false} LinesReadAs(ts: seq<string>, s: seq<char>)
    requires forall i :: 0 <= i < |ts| ==> IsShortLine(ts[i]) && !IsDiagnostic(ts[i])
    ensures ReadsAs(Lines(ts) + s, ts, s)
  {
    if ts == [] {
      assert Lines(ts) + s == s;
    } else {
      LinesCons(ts, s);
      ReadLinePlain(ts[0], Lines(ts[1..]) + s, BufLen);
      LinesReadAs(ts[1..], s);
    }
  }

  /** Answers to the first reads of a batch are consumed one by one: the
      drain of `n` reads is those answers followed by the drain of the
      remaining reads on what comes after them. */
  lemma {:induction false} DrainAfterLines(x: seq<char>, ts: seq<string>, s: seq<char>, n: nat)
    requires |ts| <= n && ReadsAs(x, ts, s)
    requires forall i :: 0 <= i < |ts| ==> !StartsWith(ts[i], AckPrefix)
    ensures var d := Drain(s, n - |ts|);
      Drain(x, n) == Drained(ts + d.answers, d.complete, d.rest)
    decreases ts
  {
    if ts == [] {
      assert ts + Drain(s, n).answers == Drain(s, n).answers;
    } else {
      var r := ReadLine(x, BufLen).rest;
      assert |ts[1..]| == |ts| - 1;
      DrainAfterLines(r, ts[1..], s, n - 1);
      assert ts + Drain(s, n - |ts|).answers == [ts[0]] + (ts[1..] + Drain(s, n - |ts|).answers);
    }
  }

  /** A `%x` line fits the buffer, is neither a diagnostic nor a failure
      report, and reads back as the value printed. */
  lemma FormatAnswer(w: Word)
    ensures IsShortLine(Format(w)) && !IsDiagnostic(Format(w)) && !StartsWith(Format(w), AckPrefix)
    ensures ParseWord(Format(w)) == w
  {
    FormatWordLength(w);
    ParseFormat(w);
  }

  /** The same for every line of a batch of `%x` answers. */
  lemma HexLinesReadBack(ws: seq<Word>)
    ensures forall i :: 0 <= i < |ws| ==>
      IsShortLine(HexLines(ws)[i]) && !IsDiagnostic(HexLines(ws)[i]) && !StartsWith(HexLines(ws)[i], AckPrefix)
    ensures ParseAll(HexLines(ws)) == ws
  {
    forall i | 0 <= i < |ws|
      ensures IsShortLine(Format(ws[i])) && !IsDiagnostic(Format(ws[i])) && !StartsWith(Format(ws[i]), AckPrefix)
      ensures ParseWord(Format(ws[i])) == ws[i]
    {
      FormatAnswer(ws[i]);
    }
  }

  /** Replies to the first reads of a batch are consumed one by one. */
  lemma DrainAfterReplies(ws: seq<Word>, s: seq<char>, n: nat)
    requires |ws| <= n
    ensures var d := Drain(s, n - |ws|);
      Drain(Replies(ws) + s, n) == Drained(HexLines(ws) + d.answers, d.complete, d.rest)
  {
    var ts := HexLines(ws);
    HexLinesReadBack(ws);
    assert forall i :: 0 <= i < |ts| ==> IsShortLine(ts[i]) && !IsDiagnostic(ts[i]);
    LinesReadAs(ts, s);
    DrainAfterLines(Replies(ws) + s, ts, s, n);
  }

  /** A batch whose every read is answered, followed by the sync echo,
      succeeds and stores the answered values in queue order; the bytes
      after the echo stay on the channel. */
  lemma FlushAnswered(ws: seq<Word>, token: string, rest: seq<char>)
    requires IsShortLine(SyncPrefix + token)
    ensures var f := Flush(Replies(ws) + (SyncPrefix + token + "\n" + rest), |ws|);
      f.ok && ParseAll(f.answers) == ws && f.rest == rest
  {
    DrainAfterReplies(ws, SyncPrefix + token + "\n" + rest, |ws|);
    HexLinesReadBack(ws);
    assert HexLines(ws) + [] == HexLines(ws);
    ReadLinePlain(SyncPrefix + token, rest, BufLen);
    assert (SyncPrefix + token)[..|SyncPrefix|] == SyncPrefix;
  }

  /** An "error ack" answer to read number |ws| (counting from 0) fails the
      flush: the values before it are stored, and the line after it (the
      sync echo included) is left unread on the channel. */
  lemma FlushAckAborts(ws: seq<Word>, n: nat, code: string, rest: seq<char>)
    requires |ws| < n && IsShortLine(AckPrefix + code)
    ensures var f := Flush(Replies(ws) + (AckPrefix + code + "\n" + rest), n);
      !f.ok && ParseAll(f.answers) == ws && f.rest == rest
  {
    DrainAfterReplies(ws, AckPrefix + code + "\n" + rest, n);
    HexLinesReadBack(ws);
    ReadLinePlain(AckPrefix + code, rest, BufLen);
    assert (AckPrefix + code)[..|AckPrefix|] == AckPrefix;
    assert HexLines(ws) + [] == HexLines(ws);
  }

  /** End of stream, or a line too long for the buffer, where an answer is
      due fails the flush the same way: only earlier values are stored. */
  lemma FlushReadFails(ws: seq<Word>, n: nat, s: seq<char>)
    requires |ws| < n && ReadLine(s, BufLen).Fail?
    ensures var f := Flush(Replies(ws) + s, n);
      !f.ok && ParseAll(f.answers) == ws && f.rest == ReadLine(s, BufLen).rest
  {
    DrainAfterReplies(ws, s, n);
    assert HexLines(ws) + [] == HexLines(ws);
    HexLinesReadBack(ws);
  }

  /** A diagnostic line anywhere between the answers of a batch, or just
      before its sync echo, changes nothing about the flush. */
  lemma FlushIgnoresDiagnostic(ws: seq<Word>, n: nat, diag: string, s: seq<char>)
    requires |ws| <= n && IsShortLine(diag) && IsDiagnostic(diag)
    ensures Flush(Replies(ws) + (diag + "\n" + s), n) == Flush(Replies(ws) + s, n)
  {
    DrainAfterReplies(ws, diag + "\n" + s, n);
    DrainAfterReplies(ws, s, n);
    ReadLineSkipsDiagnostic(diag, s, BufLen);
  }

  /** What the per-read loop keeps is exactly what it read: no answer is a
      failure report, and when every read was answered the channel
      delivered those answers, in order, ahead of the bytes left. */
  lemma {:induction false} DrainComplete(s: seq<char>, n: nat)
    ensures var d := Drain(s, n);
      forall i :: 0 <= i < |d.answers| ==> !StartsWith(d.answers[i], AckPrefix)
    ensures var d := Drain(s, n); d.complete ==> ReadsAs(s, d.answers, d.rest)
    decreases n
  {
    if n > 0 {
      var r := ReadLine(s, BufLen);
      if r.Line? && !StartsWith(r.text, AckPrefix) {
        DrainComplete(r.rest, n - 1);
        var d := Drain(r.rest, n - 1);
        assert ([r.text] + d.answers)[1..] == d.answers;
      }
    }
  }

  /** A flush succeeds only as FlushAnswered describes: the channel
      delivered the answers, none of them a failure report, then a line
      starting with "sync ", and the bytes after that line are left. */
  lemma FlushOkOnlyIf(s: seq<char>, n: nat)
    ensures var f := Flush(s, n);
      forall i :: 0 <= i < |f.answers| ==> !StartsWith(f.answers[i], AckPrefix)
    ensures var f := Flush(s, n);
      f.ok ==> exists x :: (ReadsAs(s, f.answers, x) && ReadLine(x, BufLen).Line? &&
                            StartsWith(ReadLine(x, BufLen).text, SyncPrefix) &&
                            ReadLine(x, BufLen).rest == f.rest)
  {
    DrainComplete(s, n);
    var d := Drain(s, n);
    if Flush(s, n).ok {
      assert ReadsAs(s, d.answers, d.rest);
    }
  }

  /** The per-read loop of a flush of `n` reads over `s0` has read the
      answers `answers` and the channel now holds `x`. */
  predicate DrainedSoFar(s0: seq<char>, n: nat, answers: seq<string>, x: seq<char>) {
    |answers| <= n &&
    var d := Drain(x, n - |answers|);
    Drain(s0, n) == Drained(answers + d.answers, d.complete, d.rest)
  }

  lemma DrainedSoFarStart(s0: seq<char>, n: nat)
    ensures DrainedSoFar(s0, n, [], s0)
  {
    assert [] + Drain(s0, n).answers == Drain(s0, n).answers;
  }

  /** An answer that is not a failure report moves the loop on by one read. */
  lemma DrainedSoFarStep(s0: seq<char>, n: nat, answers: seq<string>, x: seq<char>, t: string, r: seq<char>)
    requires DrainedSoFar(s0, n, answers, x) && |answers| < n
    requires ReadLine(x, BufLen) == Line(t, r) && !StartsWith(t, AckPrefix)
    ensures DrainedSoFar(s0, n, answers + [t], r)
  {
    var d := Drain(r, n - |answers| - 1);
    assert Drain(x, n - |answers|) == Drained([t] + d.answers, d.complete, d.rest);
    assert answers + ([t] + d.answers) == (answers + [t]) + d.answers;
  }

  /** A failed read or a failure report where an answer is due ends the
      flush with failure, keeping the answers read before it. */
  lemma DrainedSoFarStop(s0: seq<char>, n: nat, answers: seq<string>, x: seq<char>)
    requires DrainedSoFar(s0, n, answers, x) && |answers| < n
    requires ReadLine(x, BufLen).Fail? || StartsWith(ReadLine(x, BufLen).text, AckPrefix)
    ensures Flush(s0, n) == Flushed(false, answers, ReadLine(x, BufLen).rest)
  {
    assert answers + [] == answers;
  }

  /** Once every read is answered, the next line decides the flush. */
  lemma DrainedSoFarDone(s0: seq<char>, n: nat, answers: seq<string>, x: seq<char>)
    requires DrainedSoFar(s0, n, answers, x) && |answers| == n
    ensures var r := ReadLine(x, BufLen);
      Flush(s0, n) == Flushed(r.Line? && StartsWith(r.text, SyncPrefix), answers, r.rest)
  {
    assert answers + [] == answers;
  }

  /** Boot banners and stale lines ahead of the first sync echo are
      consumed; the loop stops right after the echo. */
  lemma {:induction false} AwaitSyncSkipsBanner(ls: seq<string>, token: string, rest: seq<char>)
    requires forall i :: 0 <= i < |ls| ==> IsShortLine(ls[i]) && !StartsWith(ls[i], SyncPrefix)
    requires IsShortLine(SyncPrefix + token)
    ensures AwaitSync(Lines(ls) + (SyncPrefix + token + "\n" + rest)) == Synced(true, rest)
  {
    var echo := SyncPrefix + token + "\n" + rest;
    if ls == [] {
      assert Lines(ls) + echo == echo;
      ReadLinePlain(SyncPrefix + token, rest, BufLen);
      assert (SyncPrefix + token)[..|SyncPrefix|] == SyncPrefix;
    } else {
      var after := Lines(ls[1..]) + echo;
      assert Lines(ls) + echo == ls[0] + "\n" + after;
      AwaitSyncSkipsBanner(ls[1..], token, rest);
      if IsDiagnostic(ls[0]) {
        ReadLineSkipsDiagnostic(ls[0], after, BufLen);
      } else {
        ReadLinePlain(ls[0], after, BufLen);
      }
    }
  }

  /** Without a complete line left on the channel the start-up loop fails. */
  lemma AwaitSyncAtEof(s: seq<char>)
    requires '\n' !in s
    ensures !AwaitSync(s).ok
  {
    ReadLineAtEof(s, BufLen);
  }

  /** `ls` is what the start-up loop reads up to its success: the last line
      is the first one that starts with "sync ". */
  predicate SyncedAfter(ls: seq<string>) {
    ls != [] && StartsWith(ls[|ls| - 1], SyncPrefix) &&
    forall i :: 0 <= i < |ls| - 1 ==> !StartsWith(ls[i], SyncPrefix)
  }

  /** The start-up loop succeeds only as AwaitSyncSkipsBanner describes: the
      channel delivered lines up to and including the first one that starts
      with "sync ", and the bytes after it are left. */
  lemma {:induction false} AwaitSyncOkOnlyIf(s: seq<char>)
    ensures var y := AwaitSync(s);
      y.ok ==> exists ls :: SyncedAfter(ls) && ReadsAs(s, ls, y.rest)
    decreases |s|
  {
    var r := ReadLine(s, BufLen);
    if r.Line? {
      var y := AwaitSync(s);
      if StartsWith(r.text, SyncPrefix) {
        assert [r.text][1..] == [];
        assert SyncedAfter([r.text]) && ReadsAs(s, [r.text], y.rest);
      } else if y.ok {
        AwaitSyncOkOnlyIf(r.rest);
        var ls :| SyncedAfter(ls) && ReadsAs(r.rest, ls, y.rest);
        var ls' := [r.text] + ls;
        assert ls'[1..] == ls;
        assert SyncedAfter(ls');
        assert ReadsAs(s, ls', y.rest);
      }
    }
  }

  /** The memory `m` after the first |vals| queued reads have stored their
      values: the k-th value goes to the k-th destination `slots[k]`, in
      queue order. */
  function Stored(m: seq<Word>, slots: seq<nat>, vals: seq<Word>): (r: seq<Word>)
    requires |vals| <= |slots|
    requires forall k :: 0 <= k < |slots| ==> slots[k] < |m|
    ensures |r| == |m|
    decreases |vals|
  {
    if vals == [] then m
    else Stored(m, slots, vals[..|vals| - 1])[slots[|vals| - 1] := vals[|vals| - 1]]
  }

  /** One more value, stored at the next destination. */
  lemma StoredStep(m: seq<Word>, slots: seq<nat>, vals: seq<Word>, v: Word)
    requires |vals| < |slots|
    requires forall k :: 0 <= k < |slots| ==> slots[k] < |m|
    ensures Stored(m, slots, vals + [v]) == Stored(m, slots, vals)[slots[|vals|] := v]
  {
    assert (vals + [v])[..|vals|] == vals;
  }

  /** Storing the value of one more answer line. */
  lemma StoredAnswer(m: seq<Word>, slots: seq<nat>, answers: seq<string>, t: string)
    requires |answers| < |slots|
    requires forall k :: 0 <= k < |slots| ==> slots[k] < |m|
    ensures Stored(m, slots, ParseAll(answers + [t])) == Stored(m, slots, ParseAll(answers))[slots[|answers|] := ParseWord(t)]
  {
    assert ParseAll(answers + [t]) == ParseAll(answers) + [ParseWord(t)];
    StoredStep(m, slots, ParseAll(answers), ParseWord(t));
  }

  /** A slot none of the first |vals| destinations names keeps its old
      value; a destination that no later one repeats holds its value. */
  lemma {:induction false} StoredAt(m: seq<Word>, slots: seq<nat>, vals: seq<Word>)
    requires |vals| <= |slots|
    requires forall k :: 0 <= k < |slots| ==> slots[k] < |m|
    ensures forall x :: 0 <= x < |m| && x !in slots[..|vals|] ==> Stored(m, slots, vals)[x] == m[x]
    ensures forall k :: 0 <= k < |vals| && slots[k] !in slots[k + 1..|vals|] ==>
      Stored(m, slots, vals)[slots[k]] == vals[k]
    decreases |vals|
  {
    if vals != [] {
      var n := |vals| - 1;
      StoredAt(m, slots, vals[..n]);
      forall x | 0 <= x < |m| && x !in slots[..|vals|]
        ensures Stored(m, slots, vals)[x] == m[x]
      {
        assert slots[n] in slots[..|vals|];
        assert forall j :: 0 <= j < n ==> slots[..n][j] == slots[..|vals|][j];
        assert x !in slots[..n];
      }
      forall k | 0 <= k < |vals| && slots[k] !in slots[k + 1..|vals|]
        ensures Stored(m, slots, vals)[slots[k]] == vals[k]
      {
        if k < n {
          assert slots[n] in slots[k + 1..|vals|];
          assert slots[k + 1..n] == slots[k + 1..|vals|][..n - k - 1];
          assert vals[..n][k] == vals[k];
        }
      }
    }
  }
}
