/** The command lines the driver sends to the PDAP firmware. Each is one line
    of space-separated words; numbers are printed with `%x`. The decoder is
    an independent inverse of rendering, written from the line format; the
    firmware's own parser is not part of this model. */
module Wire {
  import opened Hex

  datatype Option<T> = None | Some(value: T)

  datatype Command =
    | Discard                              // " ": drop any half-received command
    | EchoOff                              // "0 echo"
    | HexMode                              // "hex": numbers in hexadecimal
    | Sync(token: nat)                     // "<token> sync"
    | ReadReg(cmd: nat, report: bool)      // "<cmd> rd p" or "<cmd> rd drop"
    | WriteReg(value: nat, cmd: nat)       // "<value> <cmd> wr"
    | ApDelayClk(clocks: nat)              // "<clocks> ap_delay_clk"
    | Srst(level: nat)                     // "<level> srst"
    | LineReset                            // "line_reset"
    | JtagToSwd                            // "jtag_to_swd"
    | SwdToJtag                            // "swd_to_jtag"

  /** The text of the line (without its "\n") the driver prints for `c`:
      its words separated by single spaces. The line decodes to the command
      it was printed for and holds no line break, so no two commands share
      a line and none is split over two lines. */
  function Render(c: Command): (line: string)
    ensures Decode(line) == Some(c)
    ensures '\n' !in line && '\r' !in line
  {
    WordsPlain(c);
    SplitJoin(Words(c));
    DecodeWordsOf(c);
    Join(Words(c))
  }

  /** Words separated by single spaces. */
  function Join(ws: seq<string>): string
    requires ws != []
  {
    if |ws| == 1 then ws[0] else ws[0] + " " + Join(ws[1..])
  }

  /** The words of a line: the pieces between single spaces. */
  function Split(s: string): (r: seq<string>)
    ensures |r| > 0
    ensures forall i :: 0 <= i < |r| ==> ' ' !in r[i]
  {
    if s == [] then [[]]
    else
      var rest := Split(s[1..]);
      if s[0] == ' ' then [[]] + rest else [[s[0]] + rest[0]] + rest[1..]
  }

  /** A number word: one or more lower-case hex digits. */
  predicate IsNumber(w: string) {
    w != [] && forall i :: 0 <= i < |w| ==> IsLowerHexDigit(w[i])
  }

  function Number(w: string): nat
    requires IsNumber(w)
  {
    Value(w)
  }

  /** The command a line stands for, if any. */
  function Decode(line: string): Option<Command> {
    DecodeWords(Split(line))
  }

  function DecodeWords(w: seq<string>): Option<Command> {
    if |w| == 1 then
      if w[0] == "hex" then Some(HexMode)
      else if w[0] == "line_reset" then Some(LineReset)
      else if w[0] == "jtag_to_swd" then Some(JtagToSwd)
      else if w[0] == "swd_to_jtag" then Some(SwdToJtag)
      else None
    else if |w| == 2 then
      if w == ["", ""] then Some(Discard)
      else if w == ["0", "echo"] then Some(EchoOff)
      else if !IsNumber(w[0]) then None
      else if w[1] == "sync" then Some(Sync(Number(w[0])))
      else if w[1] == "ap_delay_clk" then Some(ApDelayClk(Number(w[0])))
      else if w[1] == "srst" then Some(Srst(Number(w[0])))
      else None
    else if |w| == 3 then
      if !IsNumber(w[0]) then None
      else if w[1] == "rd" && w[2] == "p" then Some(ReadReg(Number(w[0]), true))
      else if w[1] == "rd" && w[2] == "drop" then Some(ReadReg(Number(w[0]), false))
      else if IsNumber(w[1]) && w[2] == "wr" then Some(WriteReg(Number(w[0]), Number(w[1])))
      else None
    else None
  }

  /** The words of the line the driver prints for `c`; each number is
      printed with `%x`. */
  function Words(c: Command): (ws: seq<string>)
    ensures ws != []
  {
    match c
    case Discard => ["", ""]
    case EchoOff => ["0", "echo"]
    case HexMode => ["hex"]
    case Sync(t) => [Format(t), "sync"]
    case ReadReg(cmd, report) => [Format(cmd), "rd", if report then "p" else "drop"]
    case WriteReg(v, cmd) => [Format(v), Format(cmd), "wr"]
    case ApDelayClk(n) => [Format(n), "ap_delay_clk"]
    case Srst(l) => [Format(l), "srst"]
    case LineReset => ["line_reset"]
    case JtagToSwd => ["jtag_to_swd"]
    case SwdToJtag => ["swd_to_jtag"]
  }

  /** A word made of printable characters only: no space, no line break
      and no other control character. */
  predicate Plain(w: string) {
    forall i :: 0 <= i < |w| ==> ' ' < w[i]
  }

  predicate AllPlain(ws: seq<string>) {
    forall i :: 0 <= i < |ws| ==> Plain(ws[i])
  }

  lemma {:induction false} SplitWord(t: string)
    requires ' ' !in t
    ensures Split(t) == [t]
  {
    if t != [] {
      SplitWord(t[1..]);
      assert [t[0]] + t[1..] == t;
    }
  }

  lemma {:induction false} SplitFirstWord(t: string, u: string)
    requires ' ' !in t
    ensures Split(t + " " + u) == [t] + Split(u)
  {
    if t == [] {
      assert (t + " " + u)[1..] == u;
    } else {
      assert (t + " " + u)[1..] == t[1..] + " " + u;
      SplitFirstWord(t[1..], u);
      assert [t[0]] + t[1..] == t;
    }
  }

  /** Splitting undoes joining plain words, and the joined line holds no
      line break. */
  lemma {:induction false} SplitJoin(ws: seq<string>)
    requires ws != [] && AllPlain(ws)
    ensures Split(Join(ws)) == ws
    ensures '\n' !in Join(ws) && '\r' !in Join(ws)
    decreases |ws|
  {
    if |ws| == 1 {
      SplitWord(ws[0]);
    } else {
      assert AllPlain(ws[1..]) by {
        forall i | 0 <= i < |ws| - 1 ensures Plain(ws[1..][i]) {
          assert ws[1..][i] == ws[i + 1];
        }
      }
      assert ' ' !in ws[0];
      SplitJoin(ws[1..]);
      SplitFirstWord(ws[0], Join(ws[1..]));
      assert [ws[0]] + ws[1..] == ws;
    }
  }

  lemma FormatIsNumber(n: nat)
    ensures IsNumber(Format(n)) && Number(Format(n)) == n
    ensures ' ' !in Format(n) && '\n' !in Format(n) && '\r' !in Format(n)
  {
    ValueOfFormat(n);
  }

  lemma KeywordsPlain()
    ensures Plain("") && Plain("0") && Plain("echo") && Plain("hex") && Plain("sync")
    ensures Plain("rd") && Plain("p") && Plain("drop") && Plain("wr") && Plain("ap_delay_clk")
    ensures Plain("srst") && Plain("line_reset") && Plain("jtag_to_swd") && Plain("swd_to_jtag")
  {
  }

  /** The words of every command are plain. */
  lemma WordsPlain(c: Command)
    ensures AllPlain(Words(c))
  {
    KeywordsPlain();
    match c
    case Sync(t) => FormatIsNumber(t);
    case ApDelayClk(n) => FormatIsNumber(n);
    case Srst(l) => FormatIsNumber(l);
    case ReadReg(cmd, _) => FormatIsNumber(cmd);
    case WriteReg(v, cmd) => FormatIsNumber(v); FormatIsNumber(cmd);
    case _ =>
  }

  /** A number followed by one of the keywords of two-word commands. */
  lemma DecodeNumberKeyword(n: nat, keyword: string)
    requires keyword == "sync" || keyword == "ap_delay_clk" || keyword == "srst"
    ensures DecodeWords([Format(n), keyword]) ==
      Some(if keyword == "sync" then Sync(n) else if keyword == "srst" then Srst(n) else ApDelayClk(n))
  {
    FormatIsNumber(n);
    assert [Format(n), keyword] != ["", ""];
    assert [Format(n), keyword] != ["0", "echo"] by {
      assert keyword != "echo";
    }
  }

  lemma DecodeRead(cmd: nat, report: bool)
    ensures DecodeWords(Words(ReadReg(cmd, report))) == Some(ReadReg(cmd, report))
  {
    FormatIsNumber(cmd);
  }

  lemma DecodeWrite(v: nat, cmd: nat)
    ensures DecodeWords(Words(WriteReg(v, cmd))) == Some(WriteReg(v, cmd))
  {
    FormatIsNumber(v);
    FormatIsNumber(cmd);
    assert "wr" != "p" && "wr" != "drop";
  }

  lemma DecodeFixed(c: Command)
    requires c.Discard? || c.EchoOff? || c.HexMode? || c.LineReset? || c.JtagToSwd? || c.SwdToJtag?
    ensures DecodeWords(Words(c)) == Some(c)
  {
  }

  /** The words of every command decode to it. */
  lemma DecodeWordsOf(c: Command)
    ensures DecodeWords(Words(c)) == Some(c)
  {
    match c
    case Sync(t) => DecodeNumberKeyword(t, "sync");
    case ApDelayClk(n) => DecodeNumberKeyword(n, "ap_delay_clk");
    case Srst(l) => DecodeNumberKeyword(l, "srst");
    case ReadReg(cmd, report) => DecodeRead(cmd, report);
    case WriteReg(v, cmd) => DecodeWrite(v, cmd);
    case _ => DecodeFixed(c);
  }

  lemma JoinTwo(a: string, b: string)
    ensures Join([a, b]) == a + " " + b
  {
    assert [a, b][1..] == [b];
  }

  lemma JoinThree(a: string, b: string, c: string)
    ensures Join([a, b, c]) == a + " " + b + " " + c
  {
    assert [a, b, c][1..] == [b, c];
    JoinTwo(b, c);
  }

  /** The lines without numbers, as the driver prints them. */
  lemma RenderFixedText()
    ensures Render(Discard) == " " && Render(EchoOff) == "0 echo" && Render(HexMode) == "hex"
    ensures Render(LineReset) == "line_reset" && Render(JtagToSwd) == "jtag_to_swd"
    ensures Render(SwdToJtag) == "swd_to_jtag"
  {
    JoinTwo("", "");
    JoinTwo("0", "echo");
  }

  /** A number and a keyword print as the number, a space and the
      keyword. The caller passes the spaced keyword as `text`, a literal, so
      that the solver meets the concatenation `" " + keyword` only here.
      The two Render helpers below take `text` for the same reason. */
  lemma RenderNumberKeyword(c: Command, n: nat, keyword: string, text: string)
    requires Words(c) == [Format(n), keyword] && text == " " + keyword
    ensures Render(c) == Format(n) + text
  {
    JoinTwo(Format(n), keyword);
  }

  /** The lines with one number: the printf formats "%x sync",
      "%x ap_delay_clk" and "%x srst". */
  lemma RenderCountText(n: nat)
    ensures Render(Sync(n)) == Format(n) + " sync"
    ensures Render(ApDelayClk(n)) == Format(n) + " ap_delay_clk"
    ensures Render(Srst(n)) == Format(n) + " srst"
  {
    RenderNumberKeyword(Sync(n), n, "sync", " sync");
    RenderNumberKeyword(ApDelayClk(n), n, "ap_delay_clk", " ap_delay_clk");
    RenderNumberKeyword(Srst(n), n, "srst", " srst");
  }

  /** A command of three words prints as the words separated by single
      spaces, the last one given with its space as `text`. */
  lemma RenderThreeWords(c: Command, first: string, second: string, third: string, text: string)
    requires Words(c) == [first, second, third] && text == " " + third
    ensures Render(c) == first + " " + second + text
  {
    JoinThree(first, second, third);
    assert first + " " + second + " " + third == first + " " + second + text;
  }

  /** A number and two keywords print as the number followed by `text`,
      each keyword after a space. */
  lemma RenderNumberKeywords(c: Command, n: nat, second: string, third: string, text: string)
    requires Words(c) == [Format(n), second, third] && text == " " + second + " " + third
    ensures Render(c) == Format(n) + text
  {
    JoinThree(Format(n), second, third);
  }

  /** A register read: the printf formats "%x rd p" and "%x rd drop". */
  lemma RenderReadText(n: nat, report: bool)
    ensures Render(ReadReg(n, report)) == Format(n) + (if report then " rd p" else " rd drop")
  {
    if report {
      RenderNumberKeywords(ReadReg(n, report), n, "rd", "p", " rd p");
    } else {
      RenderNumberKeywords(ReadReg(n, report), n, "rd", "drop", " rd drop");
    }
  }

  /** A register write: the printf format "%x %x wr", the value first. */
  lemma RenderWriteText(value: nat, cmd: nat)
    ensures Render(WriteReg(value, cmd)) == Format(value) + " " + Format(cmd) + " wr"
  {
    RenderThreeWords(WriteReg(value, cmd), Format(value), Format(cmd), "wr", " wr");
  }

  /** The lines written for a sequence of commands, one per command. Each
      line decodes to its command and none holds a line break, so the lines
      separate at their line feeds into exactly the commands sent, in order. */
  function Transcript(cs: seq<Command>): (ls: seq<string>)
    ensures |ls| == |cs|
    ensures forall i :: 0 <= i < |cs| ==> Decode(ls[i]) == Some(cs[i]) && '\n' !in ls[i] && '\r' !in ls[i]
  {
    seq(|cs|, i requires 0 <= i < |cs| => Render(cs[i]))
  }
}
