/** The driver state of `pdap.c` and its operations. The serial device is a
    channel: `pending` is what the firmware sends that the driver has not
    read yet, and `output` the commands written so far, in order; the
    text the device receives for them is `Transcript(output)`. A read destination (`uint32_t *`)
    is a slot of a caller-owned array of words. */
module Driver {
  import opened Hex
  import opened Wire
  import opened LineReader
  import opened Protocol

  /** OpenOCD's status codes. */
  const ErrorOk: int := 0
  const ErrorFail: int := -4

  /** Capacity `pdap_init` gives the read queue. */
  const InitialQueueSize: int := 1024 * 16

  /** The special SWD sequences OpenOCD may ask for; only three have a
      firmware command. */
  datatype SpecialSeq = LineResetSeq | JtagToSwdSeq | SwdToJtagSeq | OtherSeq(code: int)

  /** The `ap_delay_clk` command that follows an access when the delay is
      not zero. */
  function DelayLines(apDelayClk: Word): (cs: seq<Command>)
    ensures |cs| <= 1
    ensures cs != [] <==> apDelayClk != 0
    ensures forall i :: 0 <= i < |cs| ==> cs[i] == ApDelayClk(apDelayClk)
  {
    if apDelayClk != 0 then [ApDelayClk(apDelayClk)] else []
  }

  /** The sync step of `pdap_swd_run_queue`: the token sent is the
      counter, and the counter then advances by one. */
  function SyncStep(nb: Word): (Word, Word) {
    (nb, Inc(nb))
  }

  /** Every sync step sends the current counter and leaves the next one,
      its successor modulo 2^32, which is a different token. */
  lemma SyncStepAdvances(nb: Word)
    ensures var (token, next) := SyncStep(nb);
      token == nb && next == (nb + 1) % U32 && next != token
  {
  }

  /** The first sync of `pdap_init`, `PDAP("%x sync", nb_transactions++)`,
      as the macro is written: with a debug log open, the `DBG` copy of the
      arguments is evaluated before the one for the device, so the counter
      is incremented twice and the device gets the incremented value. */
  function StartupSync(nb: Word, logging: bool): (Word, Word) {
    if logging then (Inc(nb), Inc(Inc(nb))) else (nb, Inc(nb))
  }

  /** Without a log the start-up sync is the intended step; with one it
      skips a token: from counter 0 the device receives "1 sync" and the
      counter leaves `pdap_init` at 2. */
  lemma StartupSyncSkipsToken(nb: Word)
    ensures StartupSync(nb, false) == SyncStep(nb)
    ensures StartupSync(nb, true).0 != nb && StartupSync(nb, true) != SyncStep(nb)
    ensures StartupSync(0, true) == (1, 2)
  {
  }

  class Pdap {
    /** The bytes the firmware sends that are not read yet. */
    var pending: seq<char>
    /** The command lines written to the device. */
    var output: seq<Command>
    /** `dev != NULL`. */
    var open: bool
    /** The destinations of the queued reads are `queue[..queueNext]`. */
    var queue: array<nat>
    var queueSize: int
    var queueNext: int
    var nbTransactions: Word

    predicate Valid()
      reads this
    {
      queue.Length == queueSize
      && 0 <= queueNext <= queueSize
      && (open ==> queueSize > 0)
      && (!open ==> queueNext == 0)
    }

    /** The destinations of the pending reads, in the order they were
        queued. */
    function Queued(): (q: seq<nat>)
      reads this, queue
      requires Valid()
      ensures |q| == queueNext
    {
      queue[..queueNext]
    }

    /** The driver before `pdap_init`: no device, no queue, no
        transactions yet, facing a firmware that will send `stream`. */
    constructor (stream: seq<char>)
      ensures Valid() && !open
      ensures pending == stream && output == []
      ensures queueSize == 0 && queueNext == 0 && nbTransactions == 0
    {
      pending := stream;
      output := [];
      open := false;
      queue := new nat[0];
      queueSize := 0;
      queueNext := 0;
      nbTransactions := 0;
    }

    /** `pdap_init()`. `logging` says whether a debug log file is open
        (`PDAP_LOGFILE` names a file that opens), `canOpen` whether the
        device can be opened and `canConfigure` whether both
        terminal-settings calls succeed. A second
        call on an open device changes nothing. Otherwise a fresh queue is
        allocated first; then, on an open and configured device, the driver
        sends the start-up commands and the first sync, and reads lines until
        the sync echo. A device that opens but cannot be configured stays
        open. */
    method Init(logging: bool, canOpen: bool, canConfigure: bool) returns (rv: int)
      requires Valid()
      modifies this`open, this`queue, this`queueSize, this`output, this`nbTransactions, this`pending
      ensures Valid() && (rv == ErrorOk || rv == ErrorFail)
      ensures old(open) ==>
        rv == ErrorOk && open && queue == old(queue) && queueSize == old(queueSize)
        && output == old(output) && nbTransactions == old(nbTransactions) && pending == old(pending)
      ensures !old(open) ==> open == canOpen && fresh(queue) && queueSize == InitialQueueSize && queueNext == 0
      ensures !old(open) && !(canOpen && canConfigure) ==>
        rv == ErrorFail && output == old(output) && nbTransactions == old(nbTransactions) && pending == old(pending)
      ensures !old(open) && canOpen && canConfigure ==>
        var (token, next) := StartupSync(old(nbTransactions), logging);
        output == old(output) + [Discard, EchoOff, HexMode, Sync(token)]
        && nbTransactions == next
        && var y := AwaitSync(old(pending)); (rv == ErrorOk <==> y.ok) && pending == y.rest
    {
      if open {
        return ErrorOk;
      }
      queueSize := InitialQueueSize;
      queue := new nat[queueSize];
      if !canOpen {
        return ErrorFail;
      }
      open := true;
      if !canConfigure {
        return ErrorFail;
      }
      SendStartup(logging);
      var buf := new char[BufLen];
      var ok := AwaitSyncEcho(buf);
      rv := if ok then ErrorOk else ErrorFail;
    }

    /** The commands `pdap_init` sends on a configured device: discard any
        half-received command, echo off, hexadecimal mode, and the first
        sync, whose token and counter step depend on the debug log. */
    method SendStartup(logging: bool)
      modifies this`output, this`nbTransactions
      ensures var (token, next) := StartupSync(old(nbTransactions), logging);
        output == old(output) + [Discard, EchoOff, HexMode, Sync(token)] && nbTransactions == next
    {
      Send(Discard);
      Send(EchoOff);
      Send(HexMode);
      if logging {
        // the copy of `nb_transactions++` the debug log prints
        nbTransactions := Inc(nbTransactions);
      }
      Send(Sync(nbTransactions));
      nbTransactions := Inc(nbTransactions);
    }

    /** The read loop of `pdap_init`: lines are read until one starts with
        "sync "; a failed read fails. */
    method AwaitSyncEcho(buf: array<char>) returns (ok: bool)
      requires Valid() && open && buf.Length == BufLen
      modifies this`pending, buf
      ensures Valid()
      ensures var y := AwaitSync(old(pending)); ok == y.ok && pending == y.rest
    {
      ghost var s0 := pending;
      while true
        invariant Valid() && AwaitSync(s0) == AwaitSync(pending)
        decreases |pending|
      {
        var n := Resp(buf);
        if n == ErrorFail {
          return false;
        }
        if StartsWith(buf[..n], SyncPrefix) {
          return true;
        }
      }
    }

    /** Writes one command line to the device (the `PDAP` macro). */
    method Send(c: Command)
      modifies this`output
      ensures output == old(output) + [c]
    {
      output := output + [c];
    }

    /** `pdap_resp(buf, buf.Length)`: reads one line into `buf`. On success
        the result is the line's length, `buf` holds the line followed by a
        NUL, and the line is what `ReadLine` yields; otherwise the result is
        `ERROR_FAIL`. Either way the channel has advanced past exactly the
        bytes `ReadLine` consumes. */
    method Resp(buf: array<char>) returns (n: int)
      requires Valid() && open && buf.Length >= 1
      modifies this`pending, buf
      ensures Valid()
      ensures match ReadLine(old(pending), buf.Length)
        case Line(t, r) => n == |t| && n < buf.Length && buf[..n] == t && buf[n] == '\0' && pending == r
        case Fail(r) => n == ErrorFail && pending == r
    {
      ghost var pending0 := pending;
      var len := buf.Length;
      buf[0] := '\0';
      var i := 0;
      while true
        invariant 0 <= i < len
        invariant i == 0 ==> buf[0] == '\0'
        invariant ReadLine(pending0, len) == Scan(pending, len, buf[..i])
        decreases |pending|
      {
        if i >= len - 1 {
          return ErrorFail;
        }
        if pending == [] {
          return ErrorFail;
        }
        ghost var acc := buf[..i];
        var c := pending[0];
        pending := pending[1..];
        if c == '\r' {
          continue;
        }
        if c == '\n' {
          buf[i] := '\0';
          assert buf[..i] == acc;
          assert (buf[0] == '#') == IsDiagnostic(acc);
          if len > 0 && buf[0] == '#' {
            i := 0;
            buf[0] := '\0';
            continue;
          } else {
            return i;
          }
        }
        buf[i] := c;
        assert buf[..i + 1] == acc + [c];
        i := i + 1;
      }
    }

    /** `queue_write(dst)`: appends a destination, doubling the capacity
        first when the queue is full; the queued destinations keep their
        order. */
    method QueueWrite(dst: nat)
      requires Valid() && open
      modifies this`queue, this`queueSize, this`queueNext, queue
      ensures Valid()
      ensures Queued() == old(Queued()) + [dst]
      ensures old(queueNext) < old(queueSize) ==> queue == old(queue)
      ensures queue == old(queue) || fresh(queue)
      ensures queueSize == if old(queueNext) >= old(queueSize) then 2 * old(queueSize) else old(queueSize)
    {
      if queueNext >= queueSize {
        queueSize := queueSize * 2;
        var grown := new nat[queueSize](k => 0);
        forall k | 0 <= k < queue.Length {
          grown[k] := queue[k];
        }
        queue := grown;
      }
      queue[queueNext] := dst;
      queueNext := queueNext + 1;
    }

    /** `pdap_swd_read_reg(cmd, value, ap_delay_clk)`: asks for a register
        read, reported ("p") when there is a destination and dropped
        otherwise; a reported read joins the queue. */
    method ReadReg(cmd: Byte, value: Option<nat>, apDelayClk: Word)
      requires Valid() && open
      modifies this`output, this`queue, this`queueSize, this`queueNext, queue
      ensures Valid()
      ensures output == old(output) + [Command.ReadReg(cmd, value.Some?)] + DelayLines(apDelayClk)
      ensures Queued() == old(Queued()) + (if value.Some? then [value.value] else [])
      ensures queue == old(queue) || fresh(queue)
    {
      if value.Some? {
        Send(Command.ReadReg(cmd, true));
        QueueWrite(value.value);
      } else {
        Send(Command.ReadReg(cmd, false));
      }
      if apDelayClk != 0 {
        Send(ApDelayClk(apDelayClk));
      }
    }

    /** `pdap_swd_write_reg(cmd, value, ap_delay_clk)`: asks for a register
        write; nothing is queued, as the firmware's answer is not stored. */
    method WriteReg(cmd: Byte, value: Word, apDelayClk: Word)
      requires open
      modifies this`output
      ensures output == old(output) + [Command.WriteReg(value, cmd)] + DelayLines(apDelayClk)
    {
      Send(Command.WriteReg(value, cmd));
      if apDelayClk != 0 {
        Send(ApDelayClk(apDelayClk));
      }
    }

    /** `pdap_swd_switch_seq(seq)`: one command for the three sequences the
        firmware knows; any other fails without writing anything. */
    method SwitchSeq(sq: SpecialSeq) returns (rv: int)
      requires open || sq.OtherSeq?
      modifies this`output
      ensures rv == ErrorOk <==> !sq.OtherSeq?
      ensures rv == ErrorOk || rv == ErrorFail
      ensures match sq
        case LineResetSeq => output == old(output) + [LineReset]
        case JtagToSwdSeq => output == old(output) + [JtagToSwd]
        case SwdToJtagSeq => output == old(output) + [SwdToJtag]
        case OtherSeq(_) => output == old(output)
    {
      match sq {
        case LineResetSeq => Send(LineReset);
        case JtagToSwdSeq => Send(JtagToSwd);
        case SwdToJtagSeq => Send(SwdToJtag);
        case OtherSeq(_) => return ErrorFail;
      }
      return ErrorOk;
    }

    /** `pdap_reset(trst, srst)`: only the system reset line is driven;
        `%x` prints the `int` as its 32-bit two's complement. */
    method Reset(trst: Int32, srst: Int32) returns (rv: int)
      requires open
      modifies this`output
      ensures rv == ErrorOk
      ensures output == old(output) + [Srst(Unsigned(srst))]
    {
      Send(Srst(Unsigned(srst)));
      rv := ErrorOk;
    }

    /** One round of the loop of `pdap_swd_run_queue`: reads the answer to
        a queued read and, unless the read failed or the firmware reported
        a failed access ("error ack "), stores its value at `slot`. */
    method StoreNext(mem: array<Word>, buf: array<char>, slot: nat) returns (ok: bool, ghost t: string)
      requires Valid() && open && buf.Length == BufLen && slot < mem.Length
      modifies this`pending, buf, mem
      ensures Valid()
      ensures var r := ReadLine(old(pending), BufLen);
        pending == r.rest
        && (ok <==> r.Line? && !StartsWith(r.text, AckPrefix))
        && (ok ==> t == r.text && mem[..] == old(mem[..])[slot := ParseWord(t)])
        && (!ok ==> mem[..] == old(mem[..]))
    {
      var n := Resp(buf);
      if n == ErrorFail || StartsWith(buf[..n], AckPrefix) {
        return false, [];
      }
      t := buf[..n];
      var val := ParseWord(buf[..n]);
      mem[slot] := val;
      ok := true;
    }

    /** The loop of `pdap_swd_run_queue` over the queued reads: one answer
        line each, its value stored at the read's destination; a failed
        read or an "error ack " line stops it (`goto fail`). `answers` are
        the lines whose values were stored. */
    method StoreAnswers(mem: array<Word>, buf: array<char>) returns (ok: bool, ghost answers: seq<string>)
      requires Valid() && open && buf.Length == BufLen
      requires forall k :: 0 <= k < queueNext ==> queue[k] < mem.Length
      modifies this`pending, buf, mem
      ensures Valid() && |answers| <= queueNext
      ensures mem[..] == Stored(old(mem[..]), queue[..queueNext], ParseAll(answers))
      ensures ok ==> |answers| == queueNext && DrainedSoFar(old(pending), queueNext, answers, pending)
      ensures !ok ==> Flush(old(pending), queueNext) == Flushed(false, answers, pending)
    {
      ghost var s0 := pending;
      ghost var mem0 := mem[..];
      answers := [];
      DrainedSoFarStart(s0, queueNext);
      var i := 0;
      while i < queueNext
        invariant Valid() && 0 <= i <= queueNext && |answers| == i
        invariant DrainedSoFar(s0, queueNext, answers, pending)
        invariant mem[..] == Stored(mem0, queue[..queueNext], ParseAll(answers))
      {
        ghost var here := pending;
        ghost var t;
        ok, t := StoreNext(mem, buf, queue[i]);
        if !ok {
          DrainedSoFarStop(s0, queueNext, answers, here);
          return false, answers;
        }
        DrainedSoFarStep(s0, queueNext, answers, here, t, pending);
        StoredAnswer(mem0, queue[..queueNext], answers, t);
        answers := answers + [t];
        i := i + 1;
      }
      return true, answers;
    }

    /** The end of `pdap_swd_run_queue`: reads one line and accepts it when
        it is the firmware's echo of the sync command ("sync "). */
    method ReadSyncEcho(buf: array<char>) returns (ok: bool)
      requires Valid() && open && buf.Length == BufLen
      modifies this`pending, buf
      ensures Valid()
      ensures var r := ReadLine(old(pending), BufLen);
        pending == r.rest && (ok <==> r.Line? && StartsWith(r.text, SyncPrefix))
    {
      var n := Resp(buf);
      ok := n != ErrorFail && StartsWith(buf[..n], SyncPrefix);
    }

    /** The reads of `pdap_swd_run_queue`: the answers to the queued reads,
        then the sync echo. Success, the bytes consumed and the values
        stored are those `Flush` describes. */
    method Collect(mem: array<Word>, buf: array<char>) returns (ok: bool)
      requires Valid() && open && buf.Length == BufLen
      requires forall k :: 0 <= k < queueNext ==> queue[k] < mem.Length
      modifies this`pending, buf, mem
      ensures Valid()
      ensures var f := Flush(old(pending), queueNext);
        (ok <==> f.ok) && pending == f.rest
        && mem[..] == Stored(old(mem[..]), queue[..queueNext], ParseAll(f.answers))
    {
      ghost var s0 := pending;
      ghost var answers;
      ok, answers := StoreAnswers(mem, buf);
      if ok {
        DrainedSoFarDone(s0, queueNext, answers, pending);
        ok := ReadSyncEcho(buf);
      }
    }

    /** `pdap_swd_run_queue()` with the caller memory `mem` that the queued
        destinations point into. It sends "<nb_transactions> sync", reads
        one answer per queued read and stores its value at that read's
        destination, then expects the sync echo. Success and the bytes
        consumed are those of `Flush`; the destinations written are those
        of the reads answered, in queue order; whatever the outcome, the
        transaction counter advances and the queue is emptied. */
    method RunQueue(mem: array<Word>) returns (rv: int)
      requires Valid() && open
      requires forall k :: 0 <= k < queueNext ==> queue[k] < mem.Length
      modifies this`pending, this`output, this`nbTransactions, this`queueNext, mem
      ensures Valid()
      ensures var (token, next) := SyncStep(old(nbTransactions));
        output == old(output) + [Sync(token)] && nbTransactions == next
      ensures queueNext == 0
      ensures var f := Flush(old(pending), old(queueNext));
        (rv == ErrorOk <==> f.ok) && (rv == ErrorOk || rv == ErrorFail)
        && pending == f.rest
        && mem[..] == Stored(old(mem[..]), old(Queued()), ParseAll(f.answers))
    {
      Send(Sync(nbTransactions));
      var buf := new char[BufLen](k => '\0');
      var ok := Collect(mem, buf);
      rv := if ok then ErrorOk else ErrorFail;
      nbTransactions := Inc(nbTransactions);
      queueNext := 0;
    }
  }
}
