/** The serial link to the servo-bus firmware: a MicroPython REPL on the other end of
    a USB-serial cable, driven in raw mode (the default) or in the friendly ("cooked")
    mode.

    The port is abstract: an operation returns the trace of `PortEvent`s it performs
    and, where it reads, takes the bytes the firmware sends back as a parameter.
    Bytes are modelled as characters below 256; text crosses the port as UTF-8. */
module ServoSerial {
  import opened Wrappers
  import opened Text
  import Utf8
  import Json

  // ---------------------------------------------------------------------------
  // Control bytes and the port

  const CtrlA: char := '\U{1}'   // enter raw REPL
  const CtrlB: char := '\U{2}'   // leave raw REPL
  const CtrlC: char := '\U{3}'   // interrupt
  const CtrlD: char := '\U{4}'   // submit (raw REPL)

  datatype PortEvent =
    | Write(data: string)
    | Drain(size: int)           // `con.read(max_read_size)`: bytes read and thrown away
    | ReadUntil(marker: string)  // read until `marker` has arrived

  /** The concatenation of everything written in a trace, in order. */
  function Written(events: seq<PortEvent>): string {
    if events == [] then ""
    else DataOf(events[0]) + Written(events[1..])
  }

  /** The bytes one event writes. */
  function DataOf(e: PortEvent): string {
    if e.Write? then e.data else ""
  }

  lemma WrittenCons(e: PortEvent, rest: seq<PortEvent>)
    ensures Written([e] + rest) == DataOf(e) + Written(rest)
  {
    assert ([e] + rest)[1..] == rest;
  }

  lemma {:induction false} WrittenAppend(a: seq<PortEvent>, b: seq<PortEvent>)
    ensures Written(a + b) == Written(a) + Written(b)
    decreases |a|
  {
    if a == [] {
      assert a + b == b;
    } else {
      assert (a + b)[1..] == a[1..] + b;
      WrittenAppend(a[1..], b);
    }
  }

  /** An open `BusServoSerial`: the name of the bus object on the firmware, the size
      of a drain read and the REPL mode the link drives. */
  datatype Link = Link(server: string, maxReadSize: int, rawMode: bool)

  // ---------------------------------------------------------------------------
  // Opening the link

  /** `enter_raw_mode`: interrupt, enter the raw REPL, drain the banner. */
  function EnterRawMode(m: int): (events: seq<PortEvent>)
    ensures Written(events) == [CtrlC, CtrlA]
  {
    var tail := [Write([CtrlA])] + [Drain(m)];
    WrittenCons(Drain(m), []);
    assert [Drain(m)] + [] == [Drain(m)];
    WrittenCons(Write([CtrlA]), [Drain(m)]);
    WrittenCons(Write([CtrlC]), tail);
    [Write([CtrlC])] + tail
  }

  /** The first part of the constructor: leave raw mode, interrupt, drain. */
  function Reset(m: int): (events: seq<PortEvent>)
    ensures Written(events) == [CtrlB, CtrlC]
  {
    var tail2 := [Drain(m)] + [Drain(m)];
    var tail3 := [Write([CtrlC])] + tail2;
    var tail4 := [Drain(m)] + tail3;
    WrittenCons(Drain(m), []);
    assert [Drain(m)] + [] == [Drain(m)];
    WrittenCons(Drain(m), [Drain(m)]);
    WrittenCons(Write([CtrlC]), tail2);
    WrittenCons(Drain(m), tail3);
    WrittenCons(Write([CtrlB]), tail4);
    [Write([CtrlB])] + tail4
  }

  /** The constructor's traffic once the port is open, entering raw mode when asked. */
  function Handshake(m: int, rawMode: bool): (events: seq<PortEvent>)
    ensures Written(events) == if rawMode then [CtrlB, CtrlC, CtrlC, CtrlA] else [CtrlB, CtrlC]
  {
    if rawMode then
      WrittenAppend(Reset(m), EnterRawMode(m));
      Reset(m) + EnterRawMode(m)
    else Reset(m)
  }

  /** `BusServoSerial(port, remote_bus_server, max_read_size, raw_mode)`; `portOpens`
      says whether the operating system could open the device. */
  function Open(portOpens: bool, server: string, maxReadSize: int, rawMode: bool)
    : (r: (Result<Link>, seq<PortEvent>))
    ensures !portOpens ==> r.0 == Err(PortOpenError) && r.1 == []
    ensures portOpens ==> r.0 == Ok(Link(server, maxReadSize, rawMode))
    ensures portOpens ==> r.1 == Handshake(maxReadSize, rawMode)
  {
    if !portOpens then (Err(PortOpenError), [])
    else (Ok(Link(server, maxReadSize, rawMode)), Handshake(maxReadSize, rawMode))
  }

  /** The REPL modes of the firmware as the handshake treats them: a running program,
      the friendly prompt and the raw prompt. */
  datatype ReplMode = Running | Friendly | Raw

  /** How a received byte moves the REPL between modes. */
  function ReplStep(mode: ReplMode, c: char): ReplMode {
    if c == CtrlC && mode == Running then Friendly
    else if c == CtrlA && mode == Friendly then Raw
    else if c == CtrlB && mode == Raw then Friendly
    else mode
  }

  function ReplAfter(mode: ReplMode, data: string): ReplMode
    decreases |data|
  {
    if data == [] then mode else ReplAfter(ReplStep(mode, data[0]), data[1..])
  }

  lemma ReplAfterCons(mode: ReplMode, c: char, rest: string)
    ensures ReplAfter(mode, [c] + rest) == ReplAfter(ReplStep(mode, c), rest)
  {
    assert ([c] + rest)[1..] == rest;
  }

  /** Whatever mode the firmware was left in, the bytes the constructor writes leave it
      at the raw prompt exactly when the link is opened in raw mode, and at the
      friendly prompt otherwise. */
  lemma HandshakeSelectsMode(mode: ReplMode, m: int, rawMode: bool)
    ensures ReplAfter(mode, Written(Handshake(m, rawMode))) == if rawMode then Raw else Friendly
  {
    var afterC := ReplStep(ReplStep(mode, CtrlB), CtrlC);
    assert afterC == Friendly;
    if rawMode {
      ReplAfterCons(mode, CtrlB, [CtrlC, CtrlC, CtrlA]);
      ReplAfterCons(ReplStep(mode, CtrlB), CtrlC, [CtrlC, CtrlA]);
      ReplAfterCons(afterC, CtrlC, [CtrlA]);
      ReplAfterCons(Friendly, CtrlA, []);
    } else {
      ReplAfterCons(mode, CtrlB, [CtrlC]);
      ReplAfterCons(ReplStep(mode, CtrlB), CtrlC, []);
    }
  }

  // ---------------------------------------------------------------------------
  // Frames

  /** The statement the raw REPL is asked to execute: a `print` of the call. */
  function RawStatement(server: string, cmd: string): string {
    "print(" + server + "." + cmd + ")\n"
  }

  /** What `run_command` writes in raw mode: the encoded statement, then Ctrl-D. */
  function RawFrame(server: string, cmd: string): string {
    Utf8.Encode(RawStatement(server, cmd)) + [CtrlD]
  }

  /** The line the friendly REPL is given: the call and a line end. */
  function CookedLine(server: string, cmd: string): string {
    server + "." + cmd + "\r\n"
  }

  /** What `run_command` writes in friendly mode: the encoded line. */
  function CookedFrame(server: string, cmd: string): string {
    Utf8.Encode(CookedLine(server, cmd))
  }

  /** The raw REPL executes a frame once: the single Ctrl-D is the frame's last byte,
      and the bytes before it decode to the `print` of the call on the bus object. */
  lemma RawFrameSubmitsOnce(server: string, cmd: string)
    requires Avoids(server, CtrlD) && Avoids(cmd, CtrlD)
    ensures Find(RawFrame(server, cmd), [CtrlD]) == |RawFrame(server, cmd)| - 1
    ensures Utf8.Decode(RemoveSuffix(RawFrame(server, cmd), [CtrlD])) == Some(RawStatement(server, cmd))
  {
    var body := RawStatement(server, cmd);
    assert Avoids(body, CtrlD) by {
      assert body == "print(" + server + "." + cmd + ")\n";
      forall i | 0 <= i < |body|
        ensures body[i] != CtrlD
      {
        if i < 6 {
        } else if i < 6 + |server| {
          assert body[i] == server[i - 6];
        } else if i == 6 + |server| {
        } else if i < 7 + |server| + |cmd| {
          assert body[i] == cmd[i - 7 - |server|];
        }
      }
    }
    var bytes := Utf8.Encode(body);
    Utf8.EncodeAvoids(body, CtrlD);
    FindAfterFree(bytes, [CtrlD], []);
    assert bytes + [CtrlD] + [] == RawFrame(server, cmd);
    RemoveSuffixOfAppended(bytes, [CtrlD]);
    Utf8.DecodeEncode(body);
  }

  /** The friendly REPL submits a frame once: its first carriage return is the one
      before the final line feed, and the frame decodes to the line typed. */
  lemma CookedFrameSubmitsOnce(server: string, cmd: string)
    requires Avoids(server, '\r') && Avoids(cmd, '\r')
    ensures Find(CookedFrame(server, cmd), "\r") == |CookedFrame(server, cmd)| - 2
    ensures Utf8.Decode(CookedFrame(server, cmd)) == Some(CookedLine(server, cmd))
  {
    var line := server + "." + cmd;
    assert Avoids(line, '\r') by {
      forall i | 0 <= i < |line|
        ensures line[i] != '\r'
      {
        if i < |server| {
          assert line[i] == server[i];
        } else if i > |server| {
          assert line[i] == cmd[i - |server| - 1];
        }
      }
    }
    var bytes := Utf8.Encode(line);
    Utf8.EncodeAvoids(line, '\r');
    Utf8.EncodeAppend(line, "\r\n");
    assert Utf8.IsAscii("\r\n");
    Utf8.EncodeAscii("\r\n");
    assert CookedLine(server, cmd) == line + "\r\n";
    FindAfterFree(bytes, "\r", "\n");
    assert bytes + "\r" + "\n" == CookedFrame(server, cmd);
    Utf8.DecodeEncode(CookedLine(server, cmd));
  }

  // ---------------------------------------------------------------------------
  // Replies

  /** A character is absent before the first occurrence of its one-character text. */
  lemma AbsentBeforeFirst(s: string, c: char, i: int)
    requires 0 <= i < |s|
    requires Find(s, [c]) == -1 || i < Find(s, [c])
    ensures s[i] != c
  {
    if s[i] == c {
      assert s[i..i + 1] == [c];
      assert OccursAt(s, [c], i);
    }
  }

  /** `parse_raw_result` on the text read: from just after the first `OK` up to the
      first carriage return, with Python's slicing when a marker is missing. */
  function ParseRawResult(res: string): (r: string)
    ensures Avoids(r, '\r')
    ensures |r| <= |res|
  {
    var a := SliceBound(Find(res, "OK") + 2, |res|);
    var b := SliceBound(Find(res, "\r"), |res|);
    var r := Slice(res, Find(res, "OK") + 2, Find(res, "\r"));
    assert Avoids(r, '\r') by {
      forall i | 0 <= i < |r|
        ensures r[i] != '\r'
      {
        assert r[i] == res[a + i];
        AbsentBeforeFirst(res, '\r', a + i);
      }
    }
    r
  }

  /** `parse_result(command)` on the text read: after the first echo of the command,
      up to the first prompt, without carriage returns or line feeds. */
  function ParseResult(res: string, cmd: string): (r: string)
    ensures Avoids(r, '\r') && Avoids(r, '\n')
  {
    var after := Slice(res, Find(res, cmd) + |cmd|, |res|);
    var line := SplitOn(after, ">>>")[0];
    RemoveCharKeepsAbsent(RemoveChar(line, '\r'), '\n', '\r');
    RemoveChar(RemoveChar(line, '\r'), '\n')
  }

  /** `con.read_until(b'>')`: everything up to and including the first `>`, or all of
      the text when the timeout ends the read first. */
  function ReadThroughPrompt(incoming: string): (r: string)
    ensures StartsWith(incoming, r)
    ensures Find(incoming, ">") >= 0 ==> |r| == Find(incoming, ">") + 1
    ensures Find(incoming, ">") < 0 ==> r == incoming
  {
    var k := Find(incoming, ">");
    if k < 0 then incoming else incoming[..k + 1]
  }

  /** The bytes `parse_raw_result` cuts out of what the raw REPL sends. */
  function RawPayload(incoming: string): string {
    ParseRawResult(ReadThroughPrompt(incoming))
  }

  /** Strict decoding keeps an ASCII character out when the bytes keep it out. */
  lemma DecodedAvoids(s: string, c: char)
    requires c as int < 0x80 && Avoids(s, c)
    ensures Utf8.Decode(s).Some? ==> Avoids(Utf8.Decode(s).value, c)
  {
    if Utf8.Decode(s).Some? {
      Utf8.DecodeIgnoringAgrees(s);
    }
    Utf8.DecodeIgnoringAvoids(s, c);
  }

  /** `run_command` in raw mode: write the frame, read through the prompt, decode the
      payload strictly. */
  function RawExchange(server: string, cmd: string, incoming: string)
    : (r: (seq<PortEvent>, Result<string>))
    ensures Written(r.0) == RawFrame(server, cmd)
    ensures r.1.Ok? <==> Utf8.Decode(RawPayload(incoming)).Some?
    ensures r.1.Ok? ==> Avoids(r.1.value, '\r')
    ensures r.1.Err? ==> r.1.error == Undecodable(RawPayload(incoming))
  {
    WrittenCons(ReadUntil(">"), []);
    WrittenCons(Write(RawFrame(server, cmd)), [ReadUntil(">")]);
    var payload := RawPayload(incoming);
    var text := Utf8.Decode(payload);
    DecodedAvoids(payload, '\r');
    ([Write(RawFrame(server, cmd))] + [ReadUntil(">")],
     if text.Some? then Ok(text.value) else Err(Undecodable(payload)))
  }

  /** `run_command` in friendly mode: drain, write the frame, wait for the prompt,
      decode what arrived dropping undecodable bytes, and parse it. */
  function CookedExchange(m: int, server: string, cmd: string, incoming: string)
    : (r: (seq<PortEvent>, Result<string>))
    ensures Written(r.0) == CookedFrame(server, cmd)
    ensures r.0[0] == Drain(m)
    ensures r.1.Ok? <==> Contains(incoming, ">>>")
    ensures r.1.Ok? ==> Avoids(r.1.value, '\r') && Avoids(r.1.value, '\n')
    ensures r.1.Err? ==> r.1.error == LinkTimeout
  {
    WrittenCons(ReadUntil(">>>"), []);
    WrittenCons(Write(CookedFrame(server, cmd)), [ReadUntil(">>>")]);
    WrittenCons(Drain(m), [Write(CookedFrame(server, cmd)), ReadUntil(">>>")]);
    var events := [Drain(m)] + ([Write(CookedFrame(server, cmd))] + [ReadUntil(">>>")]);
    (events, if Contains(incoming, ">>>") then Ok(ParseResult(Utf8.DecodeIgnoring(incoming), cmd))
             else Err(LinkTimeout))
  }

  /** `run_command(command)`: the events on the port and the reply, where `incoming` is
      what the firmware sends after the command is written. The raw mode fails when
      the payload is not UTF-8; the friendly mode fails with a timeout when the prompt
      never arrives and otherwise drops undecodable bytes. The reply is one line. */
  function RunCommand(link: Link, cmd: string, incoming: string)
    : (r: (seq<PortEvent>, Result<string>))
    ensures link.rawMode ==> Written(r.0) == RawFrame(link.server, cmd)
    ensures link.rawMode ==> (r.1.Ok? <==> Utf8.Decode(RawPayload(incoming)).Some?)
    ensures link.rawMode && r.1.Err? ==> r.1.error == Undecodable(RawPayload(incoming))
    ensures !link.rawMode ==> Written(r.0) == CookedFrame(link.server, cmd)
    ensures !link.rawMode ==> r.0[0] == Drain(link.maxReadSize)
    ensures !link.rawMode ==> (r.1.Ok? <==> Contains(incoming, ">>>"))
    ensures !link.rawMode && r.1.Err? ==> r.1.error == LinkTimeout
    ensures r.1.Ok? ==> Avoids(r.1.value, '\r')
  {
    if link.rawMode then RawExchange(link.server, cmd, incoming)
    else CookedExchange(link.maxReadSize, link.server, cmd, incoming)
  }

  /** What the raw REPL sends back for a statement whose output is the bytes `v`:
      `OK`, the output with its line end, the two end-of-transmission bytes and the
      prompt. */
  function RawReply(v: string): string {
    "OK" + v + "\r\n" + [CtrlD, CtrlD] + ">"
  }

  /** What the friendly REPL sends back for output bytes `v`: the echoed line, the
      output and the prompt. */
  function CookedReply(server: string, cmd: string, v: string): string {
    Utf8.Encode(server + "." + cmd) + "\r\n" + v + "\r\n" + ">>> "
  }

  /** The same reply as text, once decoded. */
  function CookedReplyText(server: string, cmd: string, v: string): string {
    server + "." + cmd + "\r\n" + v + "\r\n" + ">>> "
  }

  lemma RawReplyRead(v: string, extra: string)
    requires Avoids(v, '\r') && Avoids(v, '>')
    ensures ReadThroughPrompt(RawReply(v) + extra) == RawReply(v)
  {
    var pre := "OK" + v + "\r\n" + [CtrlD, CtrlD];
    assert Avoids(pre, '>') by {
      forall i | 0 <= i < |pre|
        ensures pre[i] != '>'
      {
        if 2 <= i < 2 + |v| {
          assert pre[i] == v[i - 2];
        }
      }
    }
    FindAfterFree(pre, ">", extra);
    assert pre + ">" + extra == RawReply(v) + extra;
    assert (RawReply(v) + extra)[..|pre| + 1] == RawReply(v);
  }

  lemma RawReplyParsed(v: string)
    requires Avoids(v, '\r')
    ensures ParseRawResult(RawReply(v)) == v
  {
    var res := RawReply(v);
    assert res[0..2] == "OK";
    assert OccursAt(res, "OK", 0);
    var pre := "OK" + v;
    assert Avoids(pre, '\r') by {
      forall i | 0 <= i < |pre|
        ensures pre[i] != '\r'
      {
        if i >= 2 {
          assert pre[i] == v[i - 2];
        }
      }
    }
    FindAfterFree(pre, "\r", "\n" + [CtrlD, CtrlD] + ">");
    assert pre + "\r" + ("\n" + [CtrlD, CtrlD] + ">") == res;
    assert res[2..2 + |v|] == v;
  }

  /** In raw mode output bytes `v` without a carriage return or `>` come back decoded,
      or as `UnicodeDecodeError` when they are not UTF-8, whatever follows the prompt. */
  lemma RawReplyOutcome(link: Link, cmd: string, v: string, extra: string)
    requires link.rawMode
    requires Avoids(v, '\r') && Avoids(v, '>')
    ensures RunCommand(link, cmd, RawReply(v) + extra).1
              == if Utf8.Decode(v).Some? then Ok(Utf8.Decode(v).value) else Err(Undecodable(v))
  {
    RawReplyRead(v, extra);
    RawReplyParsed(v);
  }

  /** In raw mode a command that prints text `t` without a carriage return or `>`
      comes back as exactly `t`, whatever follows the prompt. */
  lemma RawRoundTrip(link: Link, cmd: string, t: string, extra: string)
    requires link.rawMode
    requires Avoids(t, '\r') && Avoids(t, '>')
    ensures RunCommand(link, cmd, RawReply(Utf8.Encode(t)) + extra).1 == Ok(t)
  {
    Utf8.EncodeAvoids(t, '\r');
    Utf8.EncodeAvoids(t, '>');
    RawReplyOutcome(link, cmd, Utf8.Encode(t), extra);
    Utf8.DecodeEncode(t);
  }

  /** The first occurrence of `pat` in `s` lies within a prefix that contains `pat`. */
  lemma FindInLonger(p: string, rest: string, pat: string)
    requires Find(p, pat) >= 0
    ensures Find(p + rest, pat) == Find(p, pat)
  {
    var k := Find(p, pat);
    OccursInExtension(p, rest, pat, k);
    forall j | 0 <= j < k
      ensures !OccursAt(p + rest, pat, j)
    {
      OccursInExtension(p, rest, pat, j);
    }
  }

  /** An occurrence that ends inside `p` is one in `p + rest` too, and the other way round. */
  lemma OccursInExtension(p: string, rest: string, pat: string, j: nat)
    requires j + |pat| <= |p|
    ensures OccursAt(p + rest, pat, j) <==> OccursAt(p, pat, j)
  {
    assert (p + rest)[j..j + |pat|] == p[j..j + |pat|];
  }

  lemma CookedLineCleaned(v: string)
    requires Avoids(v, '\r') && Avoids(v, '\n')
    ensures RemoveChar(RemoveChar("\r\n" + v + "\r\n", '\r'), '\n') == v
  {
    RemoveCharAppend("\r\n" + v, "\r\n", '\r');
    RemoveCharAppend("\r\n", v, '\r');
    assert RemoveChar("\r\n", '\r') == "\n";
    RemoveCharAppend("\n" + v, "\n", '\n');
    RemoveCharAppend("\n", v, '\n');
    assert RemoveChar("\n", '\n') == "";
  }

  /** Everything after the echoed command in a friendly reply. */
  lemma CookedAfterEcho(server: string, cmd: string, v: string, extra: string)
    requires Find(server + "." + cmd, cmd) == |server| + 1
    ensures var res := CookedReplyText(server, cmd, v) + extra;
      Slice(res, Find(res, cmd) + |cmd|, |res|) == "\r\n" + v + "\r\n" + ">>> " + extra
  {
    var echo := server + "." + cmd;
    var tail := "\r\n" + v + "\r\n" + ">>> " + extra;
    var res := CookedReplyText(server, cmd, v) + extra;
    assert res == echo + tail;
    FindInLonger(echo, tail, cmd);
    assert res[|echo|..] == tail;
  }

  lemma CookedTailSplit(v: string, extra: string)
    requires Avoids(v, '>')
    ensures SplitOn("\r\n" + v + "\r\n" + ">>> " + extra, ">>>")[0] == "\r\n" + v + "\r\n"
  {
    var p := "\r\n" + v + "\r\n";
    assert Avoids(p, '>') by {
      forall i | 0 <= i < |p|
        ensures p[i] != '>'
      {
        if 2 <= i < 2 + |v| {
          assert p[i] == v[i - 2];
        }
      }
    }
    assert p + ">>> " + extra == p + ">>>" + (" " + extra);
    FindAfterFree(p, ">>>", " " + extra);
    SplitOnStep(p + ">>>" + (" " + extra), p, ">>>", " " + extra);
  }

  lemma CookedReplyHasPrompt(server: string, cmd: string, v: string, extra: string)
    ensures Contains(CookedReply(server, cmd, v) + extra, ">>>")
  {
    var p := Utf8.Encode(server + "." + cmd) + "\r\n" + v + "\r\n";
    var res := CookedReply(server, cmd, v) + extra;
    assert res == p + ">>>" + (" " + extra);
    assert res[|p|..|p| + 3] == ">>>";
    assert OccursAt(res, ">>>", |p|);
  }

  /** `parse_result` in three steps: the text after the echo, its first line before a
      prompt, and that line cleaned of line-end characters. */
  lemma ParseResultSteps(res: string, cmd: string, after: string, line: string)
    requires after == Slice(res, Find(res, cmd) + |cmd|, |res|)
    requires line == SplitOn(after, ">>>")[0]
    ensures ParseResult(res, cmd) == RemoveChar(RemoveChar(line, '\r'), '\n')
  {
  }

  lemma CookedParse(server: string, cmd: string, v: string, extra: string)
    requires Find(server + "." + cmd, cmd) == |server| + 1
    requires Avoids(v, '\r') && Avoids(v, '\n') && Avoids(v, '>')
    ensures ParseResult(CookedReplyText(server, cmd, v) + extra, cmd) == v
  {
    var res := CookedReplyText(server, cmd, v) + extra;
    var after := "\r\n" + v + "\r\n" + ">>> " + extra;
    var line := "\r\n" + v + "\r\n";
    CookedAfterEcho(server, cmd, v, extra);
    CookedTailSplit(v, extra);
    ParseResultSteps(res, cmd, after, line);
    CookedLineCleaned(v);
  }

  /** Decoding a friendly reply with errors ignored decodes the echo and the output
      separately, since the bytes after each are ASCII. */
  /** The bytes after an encoded text start with an ASCII byte: the text decodes
      back and the rest decodes on its own. */
  lemma DecodeAfterEncoded(t: string, rest: string)
    requires rest != [] && rest[0] as int < 0x80
    ensures Utf8.DecodeIgnoring(Utf8.Encode(t) + rest) == t + Utf8.DecodeIgnoring(rest)
  {
    Utf8.DecodeIgnoringAppend(Utf8.Encode(t), rest);
    Utf8.DecodeIgnoringEncode(t);
  }

  /** ASCII text around undecoded bytes decodes to itself. */
  lemma DecodeBetweenAscii(p: string, v: string, q: string, extra: string)
    requires Utf8.IsAscii(p) && Utf8.IsAscii(q) && q != []
    ensures Utf8.DecodeIgnoring(p + (v + (q + extra)))
            == p + (Utf8.DecodeIgnoring(v) + (q + Utf8.DecodeIgnoring(extra)))
  {
    Utf8.DecodeIgnoringAsciiPrefix(q, extra);
    Utf8.DecodeIgnoringAppend(v, q + extra);
    Utf8.DecodeIgnoringAsciiPrefix(p, v + (q + extra));
  }

  /** A friendly reply regrouped around the output: echo, line end, output, prompt. */
  lemma CookedReplyShape(server: string, cmd: string, v: string, extra: string)
    ensures CookedReply(server, cmd, v) + extra
            == Utf8.Encode(server + "." + cmd) + ("\r\n" + (v + (("\r\n" + ">>> ") + extra)))
    ensures CookedReplyText(server, cmd, v) + extra
            == (server + "." + cmd) + ("\r\n" + (v + (("\r\n" + ">>> ") + extra)))
  {
  }

  lemma CookedReplyDecodes(server: string, cmd: string, v: string, extra: string)
    ensures Utf8.DecodeIgnoring(CookedReply(server, cmd, v) + extra)
            == CookedReplyText(server, cmd, Utf8.DecodeIgnoring(v)) + Utf8.DecodeIgnoring(extra)
  {
    var prompt := "\r\n" + ">>> ";
    assert Utf8.IsAscii("\r\n");
    assert Utf8.IsAscii(prompt);
    DecodeBetweenAscii("\r\n", v, prompt, extra);
    DecodeAfterEncoded(server + "." + cmd, "\r\n" + (v + (prompt + extra)));
    CookedReplyShape(server, cmd, v, extra);
    CookedReplyShape(server, cmd, Utf8.DecodeIgnoring(v), Utf8.DecodeIgnoring(extra));
  }

  /** In friendly mode, when the command's first occurrence in the echoed line is the
      command itself, output bytes `v` without line-end characters or `>` come back
      decoded with undecodable bytes dropped, whatever follows the prompt. */
  lemma CookedReplyOutcome(link: Link, cmd: string, v: string, extra: string)
    requires !link.rawMode
    requires Find(link.server + "." + cmd, cmd) == |link.server| + 1
    requires Avoids(v, '\r') && Avoids(v, '\n') && Avoids(v, '>')
    ensures RunCommand(link, cmd, CookedReply(link.server, cmd, v) + extra).1
              == Ok(Utf8.DecodeIgnoring(v))
  {
    CookedReplyHasPrompt(link.server, cmd, v, extra);
    CookedReplyDecodes(link.server, cmd, v, extra);
    Utf8.DecodeIgnoringAvoids(v, '\r');
    Utf8.DecodeIgnoringAvoids(v, '\n');
    Utf8.DecodeIgnoringAvoids(v, '>');
    CookedParse(link.server, cmd, Utf8.DecodeIgnoring(v), Utf8.DecodeIgnoring(extra));
  }

  /** In friendly mode, when the echo is unambiguous, a command that prints text `t`
      without line-end characters or `>` comes back as exactly `t`. */
  lemma CookedRoundTrip(link: Link, cmd: string, t: string, extra: string)
    requires !link.rawMode
    requires Find(link.server + "." + cmd, cmd) == |link.server| + 1
    requires Avoids(t, '\r') && Avoids(t, '\n') && Avoids(t, '>')
    ensures RunCommand(link, cmd, CookedReply(link.server, cmd, Utf8.Encode(t)) + extra).1 == Ok(t)
  {
    Utf8.EncodeAvoids(t, '\r');
    Utf8.EncodeAvoids(t, '\n');
    Utf8.EncodeAvoids(t, '>');
    CookedReplyOutcome(link, cmd, Utf8.Encode(t), extra);
    Utf8.DecodeIgnoringEncode(t);
  }

  // ---------------------------------------------------------------------------
  // Commands

  /** An argument as the command builders format it into the call text. */
  datatype Arg = IntArg(n: int) | NoneArg | ListArg(xs: seq<int>)

  function ArgText(a: Arg): string {
    match a
    case IntArg(n) => IntToString(n)
    case NoneArg => "None"
    case ListArg(xs) => Json.ListRepr(xs)
  }

  function ArgTexts(args: seq<Arg>): (ts: seq<string>)
    ensures |ts| == |args|
    ensures forall i :: 0 <= i < |args| ==> ts[i] == ArgText(args[i])
  {
    if args == [] then [] else [ArgText(args[0])] + ArgTexts(args[1..])
  }

  /** The calls `BusServoSerial` can make on the firmware's bus object. */
  datatype Command =
    | Run(id: int, p: int, runtime: Option<int>)
    | RunMult(pp: seq<int>, runTime: int)
    | RunAddOrDec(id: int, speed: int)
    | Stop(id: int)
    | SetId(oldId: int, newId: int)
    | GetId(id: int)
    | SetMode(id: int, mode: int, speed: int)
    | Load(id: int)
    | Unload(id: int)
    | ServoReceiveHandle
    | GetPosition(id: int)
    | GetPositions
    | SetPositions(goal: seq<int>, runTime: int)
    | GetVin(id: int)
    | AdjustOffset(id: int, offset: int)
    | SaveOffset(id: int)
    | GetOffset(id: int)

  /** The method called on the bus object. */
  function Name(c: Command): string {
    match c
    case Run(_, _, _) => "run"
    case RunMult(_, _) => "run_mult"
    case RunAddOrDec(_, _) => "run_add_or_dec"
    case Stop(_) => "stop"
    case SetId(_, _) => "set_ID"
    case GetId(_) => "get_ID"
    case SetMode(_, _, _) => "set_mode"
    case Load(_) => "load"
    case Unload(_) => "unload"
    case ServoReceiveHandle => "servo_receive_handle"
    case GetPosition(_) => "get_position"
    case GetPositions => "get_positions"
    case SetPositions(_, _) => "set_positions"
    case GetVin(_) => "get_vin"
    case AdjustOffset(_, _) => "adjust_offset"
    case SaveOffset(_) => "save_offset"
    case GetOffset(_) => "get_offset"
  }

  /** The arguments, in the order the builder formats them; a runtime of `None` is
      printed as Python prints it. */
  function Args(c: Command): seq<Arg> {
    match c
    case Run(id, p, t) => [IntArg(id), IntArg(p), if t.Some? then IntArg(t.value) else NoneArg]
    case RunMult(pp, t) => [ListArg(pp), IntArg(t)]
    case RunAddOrDec(id, speed) => [IntArg(id), IntArg(speed)]
    case Stop(id) => [IntArg(id)]
    case SetId(o, n) => [IntArg(o), IntArg(n)]
    case GetId(id) => [IntArg(id)]
    case SetMode(id, mode, speed) => [IntArg(id), IntArg(mode), IntArg(speed)]
    case Load(id) => [IntArg(id)]
    case Unload(id) => [IntArg(id)]
    case ServoReceiveHandle => []
    case GetPosition(id) => [IntArg(id)]
    case GetPositions => []
    case SetPositions(goal, t) => [ListArg(goal), IntArg(t)]
    case GetVin(id) => [IntArg(id)]
    case AdjustOffset(id, offset) => [IntArg(id), IntArg(offset)]
    case SaveOffset(id) => [IntArg(id)]
    case GetOffset(id) => [IntArg(id)]
  }

  /** The text of the call, `name(arg, arg, ...)`, as the f-strings of the builders
      produce it. */
  function CommandText(c: Command): string {
    Name(c) + "(" + JoinWith(ArgTexts(Args(c)), ", ") + ")"
  }

  // Reading a call back, the inverse the builders are checked against.

  function ParseArg(t: string): Option<Arg> {
    if t == "None" then Some(NoneArg)
    else
      var n := ParseInt(t);
      if n.Some? then Some(IntArg(n.value)) else None
  }

  function ParseArgs(ts: seq<string>): (r: Option<seq<Arg>>)
    ensures r.Some? ==> |r.value| == |ts|
  {
    if ts == [] then Some([])
    else
      var a := ParseArg(ts[0]);
      var rest := ParseArgs(ts[1..]);
      if a.Some? && rest.Some? then Some([a.value] + rest.value) else None
  }

  /** Splits `name(args)` into the name and the arguments. */
  function ParseCall(t: string): Option<(string, seq<Arg>)> {
    var k := Find(t, "(");
    if k < 0 || !EndsWith(t, ")") || k + 1 > |t| - 1 then None
    else
      var inner := t[k + 1..|t| - 1];
      if inner == [] then Some((t[..k], []))
      else
        var args := ParseArgs(SplitOn(inner, ", "));
        if args.Some? then Some((t[..k], args.value)) else None
  }

  /** The command takes no list argument. */
  predicate Scalar(c: Command) {
    forall i :: 0 <= i < |Args(c)| ==> !Args(c)[i].ListArg?
  }

  /** Method names are made of letters and underscores. */
  predicate IsNameChar(ch: char) {
    'a' <= ch <= 'z' || 'A' <= ch <= 'Z' || ch == '_'
  }

  lemma NameCharsAvoidParen(n: string)
    requires forall i :: 0 <= i < |n| ==> IsNameChar(n[i])
    ensures Avoids(n, '(')
  {
  }

  lemma NameAvoidsParen(c: Command)
    ensures Avoids(Name(c), '(')
  {
    match c
    case Run(_, _, _) => NameCharsAvoidParen("run");
    case RunMult(_, _) => NameCharsAvoidParen("run_mult");
    case RunAddOrDec(_, _) => NameCharsAvoidParen("run_add_or_dec");
    case Stop(_) => NameCharsAvoidParen("stop");
    case SetId(_, _) => NameCharsAvoidParen("set_ID");
    case GetId(_) => NameCharsAvoidParen("get_ID");
    case SetMode(_, _, _) => NameCharsAvoidParen("set_mode");
    case Load(_) => NameCharsAvoidParen("load");
    case Unload(_) => NameCharsAvoidParen("unload");
    case ServoReceiveHandle => NameCharsAvoidParen("servo_receive_handle");
    case GetPosition(_) => NameCharsAvoidParen("get_position");
    case GetPositions => NameCharsAvoidParen("get_positions");
    case SetPositions(_, _) => NameCharsAvoidParen("set_positions");
    case GetVin(_) => NameCharsAvoidParen("get_vin");
    case AdjustOffset(_, _) => NameCharsAvoidParen("adjust_offset");
    case SaveOffset(_) => NameCharsAvoidParen("save_offset");
    case GetOffset(_) => NameCharsAvoidParen("get_offset");
  }

  lemma ArgOfText(a: Arg)
    requires !a.ListArg?
    ensures Avoids(ArgText(a), ',')
    ensures ParseArg(ArgText(a)) == Some(a)
  {
    if a.IntArg? {
      var t := IntToString(a.n);
      assert t[0] != 'N';
      ParseIntOfString(a.n);
    }
  }

  lemma {:induction false} ParseArgsOfTexts(args: seq<Arg>)
    requires forall i :: 0 <= i < |args| ==> !args[i].ListArg?
    ensures ParseArgs(ArgTexts(args)) == Some(args)
    decreases |args|
  {
    if args != [] {
      ArgOfText(args[0]);
      ParseArgsOfTexts(args[1..]);
      assert ArgTexts(args)[1..] == ArgTexts(args[1..]);
      assert [args[0]] + args[1..] == args;
    }
  }

  lemma CallTextShape(c: Command, inner: string)
    requires inner == JoinWith(ArgTexts(Args(c)), ", ")
    ensures Find(CommandText(c), "(") == |Name(c)|
    ensures EndsWith(CommandText(c), ")")
    ensures CommandText(c)[..|Name(c)|] == Name(c)
    ensures CommandText(c)[|Name(c)| + 1..|CommandText(c)| - 1] == inner
  {
    var t := CommandText(c);
    Regroup3(Name(c) + "(", inner, ")");
    assert t == Name(c) + "(" + (inner + ")");
    NameAvoidsParen(c);
    FindAfterFree(Name(c), "(", inner + ")");
    assert t[|t| - 1..] == ")";
  }

  /** Reading back the text of a call without list arguments gives its name and its
      arguments. */
  lemma CallTextRoundTrip(c: Command)
    requires Scalar(c)
    ensures ParseCall(CommandText(c)) == Some((Name(c), Args(c)))
  {
    var ts := ArgTexts(Args(c));
    var inner := JoinWith(ts, ", ");
    CallTextShape(c, inner);
    if Args(c) != [] {
      forall i | 0 <= i < |ts|
        ensures Avoids(ts[i], ", "[0])
      {
        ArgOfText(Args(c)[i]);
      }
      SplitJoin(ts, ", ");
      ParseArgsOfTexts(Args(c));
    }
  }

  /** A command is determined by its name and its arguments. */
  lemma NameAndArgsDetermine(c: Command, d: Command)
    requires Name(c) == Name(d) && Args(c) == Args(d)
    ensures c == d
  {
  }

  /** Distinct commands without list arguments have distinct texts. */
  lemma CommandTextInjective(c: Command, d: Command)
    requires Scalar(c) && Scalar(d)
    requires CommandText(c) == CommandText(d)
    ensures c == d
  {
    CallTextRoundTrip(c);
    CallTextRoundTrip(d);
    NameAndArgsDetermine(c, d);
  }

  lemma Join3(a: string, b: string, c: string, sep: string)
    ensures JoinWith([a, b, c], sep) == a + sep + b + sep + c
  {
    JoinCons(b, [c], sep);
    assert [b] + [c] == [b, c];
    JoinCons(a, [b, c], sep);
    assert [a] + [b, c] == [a, b, c];
  }

  lemma Parens3(n: string, x: string, y: string, z: string, sep: string)
    ensures n + "(" + (x + sep + y + sep + z) + ")" == n + "(" + x + sep + y + sep + z + ")"
  {
  }

  lemma JoinThree(ts: seq<string>)
    requires |ts| == 3
    ensures JoinWith(ts, ", ") == ts[0] + ", " + ts[1] + ", " + ts[2]
  {
    assert ts == [ts[0], ts[1], ts[2]];
    Join3(ts[0], ts[1], ts[2], ", ");
  }

  /** A builder with three arguments writes `name(arg, arg, arg)`. */
  lemma ThreeArgText(c: Command)
    requires |Args(c)| == 3
    ensures CommandText(c) == Name(c) + "(" + ArgText(Args(c)[0]) + ", " + ArgText(Args(c)[1])
                              + ", " + ArgText(Args(c)[2]) + ")"
  {
    var ts := ArgTexts(Args(c));
    JoinThree(ts);
    Parens3(Name(c), ts[0], ts[1], ts[2], ", ");
  }

  /** A builder with two arguments writes `name(arg, arg)`. */
  lemma TwoArgText(c: Command)
    requires |Args(c)| == 2
    ensures CommandText(c) == Name(c) + "(" + ArgText(Args(c)[0]) + ", " + ArgText(Args(c)[1]) + ")"
  {
    var ts := ArgTexts(Args(c));
    assert ts == [ts[0]] + [ts[1]];
    JoinCons(ts[0], [ts[1]], ", ");
  }

  /** `run(id, p, servo_run_time)`: three arguments, `None` printed for no runtime. */
  lemma RunText(id: int, p: int, t: Option<int>)
    ensures CommandText(Run(id, p, t))
            == "run(" + IntToString(id) + ", " + IntToString(p) + ", "
               + (if t.Some? then IntToString(t.value) else "None") + ")"
  {
    var c := Run(id, p, t);
    ThreeArgText(c);
    assert Name(c) + "(" == "run(";
    assert ArgText(Args(c)[0]) == IntToString(id);
    assert ArgText(Args(c)[1]) == IntToString(p);
    assert ArgText(Args(c)[2]) == if t.Some? then IntToString(t.value) else "None";
  }

  /** A builder with one argument writes `name(arg)`. */
  lemma OneArgText(c: Command)
    requires |Args(c)| == 1
    ensures CommandText(c) == Name(c) + "(" + ArgText(Args(c)[0]) + ")"
  {
    assert ArgTexts(Args(c)) == [ArgText(Args(c)[0])];
  }

  /** A builder without arguments writes `name()`. */
  lemma NoArgText(c: Command)
    requires Args(c) == []
    ensures CommandText(c) == Name(c) + "()"
  {
  }

  // ---------------------------------------------------------------------------
  // Calls with decoded replies

  /** A builder: run the command's text and return the reply as text. */
  function Call(link: Link, c: Command, incoming: string): (r: (seq<PortEvent>, Result<string>))
    ensures Written(r.0) == if link.rawMode then RawFrame(link.server, CommandText(c))
                            else CookedFrame(link.server, CommandText(c))
    ensures link.rawMode ==> (r.1.Ok? <==> Utf8.Decode(RawPayload(incoming)).Some?)
    ensures !link.rawMode ==> (r.1.Ok? <==> Contains(incoming, ">>>"))
    ensures r.1.Err? ==> r.1.error == if link.rawMode then Undecodable(RawPayload(incoming)) else LinkTimeout
  {
    RunCommand(link, CommandText(c), incoming)
  }

  /** `get_position(id)`: `int()` of the reply; a reply that is not an integer is
      `Malformed`. */
  function ReadPosition(link: Link, id: int, incoming: string): (r: (seq<PortEvent>, Result<int>))
    ensures r.0 == Call(link, GetPosition(id), incoming).0
    ensures r.1.Ok? <==> Call(link, GetPosition(id), incoming).1.Ok?
                         && ParseInt(Call(link, GetPosition(id), incoming).1.value).Some?
  {
    var (events, reply) := Call(link, GetPosition(id), incoming);
    if reply.Err? then (events, Err(reply.error))
    else
      var n := ParseInt(reply.value);
      if n.Some? then (events, Ok(n.value)) else (events, Err(Malformed(reply.value)))
  }

  /** `get_positions()`: the JSON array the firmware prints, or `Malformed` carrying
      the reply; never part of an array. */
  function ReadPositions(link: Link, incoming: string): (r: (seq<PortEvent>, Result<seq<int>>))
    ensures r.0 == Call(link, GetPositions, incoming).0
    ensures r.1.Ok? <==> Call(link, GetPositions, incoming).1.Ok?
                         && Json.Decode(Call(link, GetPositions, incoming).1.value).Ok?
    ensures r.1.Ok? ==> Json.Decode(Call(link, GetPositions, incoming).1.value) == Ok(r.1.value)
    ensures r.1.Err? && Call(link, GetPositions, incoming).1.Ok? ==>
              r.1.error == Malformed(Call(link, GetPositions, incoming).1.value)
  {
    var (events, reply) := Call(link, GetPositions, incoming);
    if reply.Err? then (events, Err(reply.error))
    else (events, Json.Decode(reply.value))
  }

  /** `set_positions(goal, t)`: exactly six goals, or a failed assertion before anything
      is written. */
  function WriteGoals(link: Link, goal: seq<int>, runTime: int, incoming: string)
    : (r: (seq<PortEvent>, Result<()>))
    ensures |goal| != 6 ==> r == ([], Err(AssertionFailed))
    ensures |goal| == 6 ==> r.0 == Call(link, SetPositions(goal, runTime), incoming).0
    ensures |goal| == 6 ==> (r.1.Ok? <==> Call(link, SetPositions(goal, runTime), incoming).1.Ok?)
    ensures |goal| == 6 && r.1.Err? ==> r.1.error == Call(link, SetPositions(goal, runTime), incoming).1.error
  {
    if |goal| != 6 then ([], Err(AssertionFailed))
    else
      var (events, reply) := Call(link, SetPositions(goal, runTime), incoming);
      (events, if reply.Err? then Err(reply.error) else Ok(()))
  }

  lemma IntTextPlain(n: int)
    ensures Avoids(IntToString(n), '\r') && Avoids(IntToString(n), '\n') && Avoids(IntToString(n), '>')
  {
  }

  /** The text a friendly-mode reply is parsed against echoes the call unambiguously. */
  predicate EchoUnambiguous(link: Link, c: Command) {
    Find(link.server + "." + CommandText(c), CommandText(c)) == |link.server| + 1
  }

  /** The bytes the firmware sends when the call `c` prints text `t`, in the link's mode. */
  function ReplyFor(link: Link, c: Command, t: string): string {
    if link.rawMode then RawReply(Utf8.Encode(t)) else CookedReply(link.server, CommandText(c), Utf8.Encode(t))
  }

  /** A call printing text `t` on one line without `>` is read back as `t`. */
  lemma CallRoundTrip(link: Link, c: Command, t: string, extra: string)
    requires !link.rawMode ==> EchoUnambiguous(link, c)
    requires Avoids(t, '\r') && Avoids(t, '\n') && Avoids(t, '>')
    ensures Call(link, c, ReplyFor(link, c, t) + extra).1 == Ok(t)
  {
    if link.rawMode {
      RawRoundTrip(link, CommandText(c), t, extra);
    } else {
      CookedRoundTrip(link, CommandText(c), t, extra);
    }
  }

  /** A firmware that prints the servo's position `n` is read back as `n`, in raw mode
      and, when the echo is unambiguous, in friendly mode. */
  lemma ReadPositionRoundTrip(link: Link, id: int, n: int, extra: string)
    requires !link.rawMode ==> EchoUnambiguous(link, GetPosition(id))
    ensures ReadPosition(link, id, ReplyFor(link, GetPosition(id), IntToString(n)) + extra).1 == Ok(n)
  {
    IntTextPlain(n);
    CallRoundTrip(link, GetPosition(id), IntToString(n), extra);
    ParseIntOfString(n);
  }

  /** A firmware that prints the list of positions `xs` is read back as `xs`, in raw
      mode and, when the echo is unambiguous, in friendly mode. */
  lemma ReadPositionsRoundTrip(link: Link, xs: seq<int>, extra: string)
    requires !link.rawMode ==> EchoUnambiguous(link, GetPositions)
    ensures ReadPositions(link, ReplyFor(link, GetPositions, Json.ListRepr(xs)) + extra).1 == Ok(xs)
  {
    var v := Json.ListRepr(xs);
    Json.ListReprAvoids(xs, '\r');
    Json.ListReprAvoids(xs, '\n');
    Json.ListReprAvoids(xs, '>');
    CallRoundTrip(link, GetPositions, v, extra);
    Json.DecodeListRepr(xs);
  }
}
