/** The display session: one LCD with its cursor, the report exchange with
    the device, and the splitting of text into reports that neither exceed
    the report payload nor cross a display row. */
module Smclcd {
  import opened Proto
  import opened Errors
  import opened Cursors

  function Min(a: int, b: int): (r: int) { if a < b then a else b }

  // Cursor display states
  const CursorOff: byte := 0
  const CursorBlock: byte := 1
  const CursorUnderline: byte := 2
  const CursorBoth: byte := 3

  const Newline: byte := 0x0A
  const Space: byte := 0x20
  const Question: byte := 0x3F

  /** A key report: the raw key-code and key-event bytes. */
  datatype Key = Key(code: byte, event: byte)

  /** Printable ASCII. */
  predicate IsPrint(b: byte) { 0x20 <= b <= 0x7E }

  predicate Printable(s: seq<byte>) { forall i :: 0 <= i < |s| ==> IsPrint(s[i]) }

  /** The text writeRaw sends: every non-printable byte replaced by '?'. */
  function Sanitize(p: seq<byte>): (s: seq<byte>)
    ensures |s| == |p| && Printable(s)
    ensures forall i :: 0 <= i < |p| && IsPrint(p[i]) ==> s[i] == p[i]
    ensures forall i :: 0 <= i < |p| && !IsPrint(p[i]) ==> s[i] == Question
  {
    seq(|p|, i requires 0 <= i < |p| => if IsPrint(p[i]) then p[i] else Question)
  }

  /** Lines joined with newlines. */
  function Join(lines: seq<seq<byte>>): (r: seq<byte>)
    decreases |lines|
  {
    if lines == [] then []
    else if |lines| == 1 then lines[0]
    else lines[0] + [Newline] + Join(lines[1..])
  }

  /** bytes.Split(p, "\n"): the newline-free pieces between newlines;
      there is always one more piece than there are newlines. */
  function Split(p: seq<byte>): (lines: seq<seq<byte>>)
    ensures |lines| >= 1
    ensures forall i :: 0 <= i < |lines| ==> Newline !in lines[i]
    ensures Join(lines) == p
    decreases |p|
  {
    if p == [] then [[]]
    else
      var rest := Split(p[1..]);
      if p[0] == Newline then
        assert [[]] + rest == [[]] + rest[..1] + rest[1..];
        [[]] + rest
      else
        var lines := [[p[0]] + rest[0]] + rest[1..];
        assert lines[1..] == rest[1..];
        assert p == [p[0]] + p[1..];
        lines
  }

  /** The command that moves the device cursor to a position. */
  function MoveCmd(pos: int): (r: seq<byte>)
  {
    [CmdLCD, LcdControl, Byte(pos)]
  }

  /** The command that writes one chunk of text at the device cursor. */
  function WriteCmd(chunk: seq<byte>): (r: seq<byte>)
  {
    [CmdLCD, LcdWrite] + chunk
  }

  /** The command that asks for the text at the device cursor; its
      response starts with the same two bytes. */
  const ReadCmd: seq<byte> := [CmdLCD, LcdRead]

  /** Where the wait for a report with the given prefix (after the input
      report ID) ends: the index of the first such report, or the length
      of the inbox when there is none. */
  function FirstMatch(inbox: seq<Report>, q: seq<byte>): (k: nat)
    ensures k <= |inbox|
    ensures forall j :: 0 <= j < k ==> !HasPrefix(inbox[j], q)
    ensures k < |inbox| ==> HasPrefix(inbox[k], q)
    decreases |inbox|
  {
    if inbox == [] || HasPrefix(inbox[0], q) then 0
    else 1 + FirstMatch(inbox[1..], q)
  }

  /** The outcome of waiting for a report: whether one matched, the report,
      and the reports left unread. */
  datatype Received = Received(found: bool, report: Report, rest: seq<Report>)

  /** Waiting for an input report that starts with the input report ID
      followed by `prefix`: every report before it is read and dropped. */
  function Recv(inbox: seq<Report>, prefix: seq<byte>): (got: Received)
    ensures !got.found ==> got.rest == []
  {
    var q := [InputReportID] + prefix;
    var k := FirstMatch(inbox, q);
    if k < |inbox| then Received(true, inbox[k], inbox[k + 1..])
    else Received(false, seq(16, _ => 0), [])
  }

  /** Recv finds a report exactly when one in the inbox carries the
      prefix; it is the first such report, and the reports left are the
      ones after it. */
  lemma RecvFinds(inbox: seq<Report>, prefix: seq<byte>)
    ensures var got := Recv(inbox, prefix);
      && (got.found <==> exists i :: 0 <= i < |inbox| && HasPrefix(inbox[i], [InputReportID] + prefix))
      && (got.found ==>
            && HasPrefix(got.report, [InputReportID] + prefix)
            && |inbox| - |got.rest| - 1 == FirstMatch(inbox, [InputReportID] + prefix)
            && got.report == inbox[|inbox| - |got.rest| - 1]
            && got.rest == inbox[|inbox| - |got.rest|..])
  {
  }

  /** Go's copy(dst[lo:hi], src): the first min(hi - lo, |src|) bytes of
      src overwrite dst from lo on, and their number is returned; the
      rest of dst is unchanged. */
  method Copy(dst: array<byte>, lo: nat, hi: nat, src: seq<byte>) returns (c: nat)
    requires lo <= hi <= dst.Length
    modifies dst
    ensures c == Min(hi - lo, |src|)
    ensures forall j :: 0 <= j < lo || lo + c <= j < dst.Length ==> dst[j] == old(dst[j])
    ensures forall j :: lo <= j < lo + c ==> dst[j] == src[j - lo]
  {
    c := Min(hi - lo, |src|);
    for i := 0 to c
      invariant forall j :: 0 <= j < lo || lo + i <= j < dst.Length ==> dst[j] == old(dst[j])
      invariant forall j :: lo <= j < lo + i ==> dst[j] == src[j - lo]
    {
      dst[lo + i] := src[i];
    }
  }

  /** A sequence that starts with x and goes on with y starts with x + y. */
  lemma Concatenated(a: seq<byte>, x: seq<byte>, y: seq<byte>)
    requires |x| + |y| <= |a|
    requires forall j :: 0 <= j < |x| ==> a[j] == x[j]
    requires forall j :: 0 <= j < |y| ==> a[|x| + j] == y[j]
    ensures forall j :: 0 <= j < |x| + |y| ==> a[j] == (x + y)[j]
  {
    forall j | 0 <= j < |x| + |y|
      ensures a[j] == (x + y)[j]
    {
      if j >= |x| {
        assert a[|x| + (j - |x|)] == y[j - |x|];
      }
    }
  }

  /** The end of a round of Read's loop: copy(p[n:], b) places as much of
      the row buffer b as fits after the n bytes already read, and a
      newline follows when the whole row was read and room is left.  The
      new count is returned. */
  method PutRow(p: array<byte>, n: nat, b: array<byte>, full: bool, ghost out: seq<byte>) returns (n': nat)
    requires n <= p.Length && p != b
    requires |out| == n && forall j :: 0 <= j < n ==> p[j] == out[j]
    modifies p
    ensures var c := Min(p.Length - n, b.Length);
      var placed := if n + c < p.Length && full then out + b[..c] + [Newline] else out + b[..c];
      n' == |placed| && n' <= p.Length && forall j :: 0 <= j < n' ==> p[j] == placed[j]
    ensures forall j :: n' <= j < p.Length ==> p[j] == old(p[j])
  {
    var c := Copy(p, n, p.Length, b[..]);
    Concatenated(p[..], out, b[..c]);
    n' := n + c;
    if n' < p.Length && full {
      p[n'] := Newline;
      Concatenated(p[..], out + b[..c], [Newline]);
      n' := n' + 1;
    }
  }

  /** fmt's %x of one hex digit. */
  function HexDigit(d: int): (r: char)
    requires 0 <= d < 16
  {
    if d < 10 then ('0' as int + d) as char else ('a' as int + d - 10) as char
  }

  /** fmt's %x of a byte: lower-case hex digits without a leading zero. */
  function Hex(v: byte): (r: string)
  {
    if v < 16 then [HexDigit(v)] else [HexDigit(v / 16), HexDigit(v % 16)]
  }

  /** The version string "%x.%x". */
  function FormatVersion(major: byte, minor: byte): (r: string)
  {
    Hex(major) + "." + Hex(minor)
  }

  /** Where a write stopped: the count it returns, its error, the cursor
      position, and the log of every command sent, this write's last. */
  datatype WriteResult = WriteResult(n: int, err: Error, pos: int, log: seq<seq<byte>>)

  /** The outcome of one round of writeRaw's loop: the write is over
      with a result, or it goes on from a new cursor position, count and
      command log. */
  datatype WriteRound =
    | WriteFinished(result: WriteResult)
    | WriteContinue(pos: int, n: nat, log: seq<seq<byte>>)

  /** One round of writeRaw's loop on the sanitized text d from a valid
      position with n bytes written: send the next chunk, at most the data
      length and at most what is left of the row, advance the cursor over
      it and, unless that left the display, move the device cursor there.
      Every round writes at least one byte; a round that ends does so with
      an error. */
  function WriteRawRound(pos: int, d: seq<byte>, n: nat, log: seq<seq<byte>>): (r: WriteRound)
    requires n < |d| && PosError(pos) == NoError
    ensures r.WriteFinished? ==>
      && n < r.result.n <= |d| && r.result.err != NoError && r.result.pos == pos + (r.result.n - n)
    ensures r.WriteContinue? ==> n < r.n <= |d| && r.pos == pos + (r.n - n)
  {
    var m := Min(|d| - n, Min(Remaining(pos), OutputReportDataLen));
    if PosError(pos + m) != NoError then
      WriteFinished(WriteResult(n + m, PosError(pos + m), pos + m, log + [WriteCmd(d[n..n + m])]))
    else
      WriteContinue(pos + m, n + m, log + [WriteCmd(d[n..n + m])] + [MoveCmd(pos + m)])
  }

  /** A round of writeRaw's loop sends the chunk of m bytes and, when
      the cursor advanced over it stays valid, the move to the new position. */
  lemma WriteRawRoundSends(pos: int, d: seq<byte>, n: nat, log: seq<seq<byte>>, m: int, err: Error, log': seq<seq<byte>>)
    requires n < |d| && PosError(pos) == NoError
    requires m == Min(|d| - n, Min(Remaining(pos), OutputReportDataLen)) && err == PosError(pos + m)
    requires log' == log + [WriteCmd(d[n..n + m])] + if err == NoError then [MoveCmd(pos + m)] else []
    ensures WriteRawRound(pos, d, n, log) ==
      if err == NoError then WriteContinue(pos + m, n + m, log')
      else WriteFinished(WriteResult(n + m, err, pos + m, log'))
  {
  }

  /** writeRaw's loop on the sanitized text d, from the loop state (cursor
      pos, n bytes written, commands sent so far): rounds go on while text
      remains and the cursor is valid. */
  function WriteRawLoop(pos: int, d: seq<byte>, n: nat, log: seq<seq<byte>>): (r: WriteResult)
    requires n <= |d|
    decreases |d| - n
  {
    if n == |d| then WriteResult(n, NoError, pos, log)
    else if PosError(pos) != NoError then WriteResult(n, PosError(pos), pos, log)
    else
      match WriteRawRound(pos, d, n, log)
      case WriteFinished(r) => r
      case WriteContinue(pos', n', log') => WriteRawLoop(pos', d, n', log')
  }

  /** writeRaw of the text p from cursor pos, after the commands in log. */
  function WriteRawFrom(pos: int, p: seq<byte>, log: seq<seq<byte>>): (r: WriteResult)
  {
    WriteRawLoop(pos, Sanitize(p), 0, log)
  }

  /** Write's loop over the lines as the driver has it, from line i with n
      bytes counted: each line goes through writeRaw; after a line that is
      not the last and was shorter than what was left of its row, the rest
      of the row is filled with spaces and the newline is counted.  The
      newline after a line that filled its row is consumed but not
      counted. */
  function WriteLoop(pos: int, lines: seq<seq<byte>>, i: nat, n: int, log: seq<seq<byte>>): (r: WriteResult)
    requires i <= |lines|
    decreases |lines| - i
  {
    if i == |lines| then WriteResult(n, NoError, pos, log)
    else
      var w := WriteRawFrom(pos, lines[i], log);
      if w.err != NoError then WriteResult(n + w.n, w.err, w.pos, w.log)
      else if i + 1 < |lines| && |lines[i]| < Remaining(pos) then
        var pad := WriteRawFrom(w.pos, Repeat(Space, Remaining(w.pos)), w.log);
        if pad.err != NoError then WriteResult(n + w.n, pad.err, pad.pos, pad.log)
        else WriteLoop(pad.pos, lines, i + 1, n + w.n + 1, pad.log)
      else WriteLoop(w.pos, lines, i + 1, n + w.n, w.log)
  }

  /** Write of p from cursor pos, after the commands in log. */
  function WriteFrom(pos: int, p: seq<byte>, log: seq<seq<byte>>): (r: WriteResult)
  {
    WriteLoop(pos, Split(p), 0, 0, log)
  }

  /** Write's loop with every consumed newline counted, whether or not the
      row was padded: the count the io.Writer contract asks for. */
  function WriteCountedLoop(pos: int, lines: seq<seq<byte>>, i: nat, n: int, log: seq<seq<byte>>): (r: WriteResult)
    requires i <= |lines|
    decreases |lines| - i
  {
    if i == |lines| then WriteResult(n, NoError, pos, log)
    else
      var w := WriteRawFrom(pos, lines[i], log);
      if w.err != NoError then WriteResult(n + w.n, w.err, w.pos, w.log)
      else if i + 1 < |lines| && |lines[i]| < Remaining(pos) then
        var pad := WriteRawFrom(w.pos, Repeat(Space, Remaining(w.pos)), w.log);
        if pad.err != NoError then WriteResult(n + w.n, pad.err, pad.pos, pad.log)
        else WriteCountedLoop(pad.pos, lines, i + 1, n + w.n + 1, pad.log)
      else if i + 1 < |lines| then WriteCountedLoop(w.pos, lines, i + 1, n + w.n + 1, w.log)
      else WriteCountedLoop(w.pos, lines, i + 1, n + w.n, w.log)
  }

  /** Write of p with every consumed newline counted. */
  function WriteCountedFrom(pos: int, p: seq<byte>, log: seq<seq<byte>>): (r: WriteResult)
  {
    WriteCountedLoop(pos, Split(p), 0, 0, log)
  }

  /** Where a read stopped: the bytes placed in the caller's buffer so
      far, its error, the cursor position, the log of every command sent,
      and the reports not read yet. */
  datatype ReadResult = ReadResult(data: seq<byte>, err: Error, pos: int, log: seq<seq<byte>>, inbox: seq<Report>)

  /** The prefix a read response starts with. */
  const ReadResponsePrefix: seq<byte> := [InputReportID] + ReadCmd

  /** The outcome of one round of readRaw's loop: the read is over with
      a result, or it goes on from a new loop state. */
  datatype Round =
    | Finished(result: ReadResult)
    | Continue(pos: int, inbox: seq<Report>, data: seq<byte>, log: seq<seq<byte>>)

  /** One round of readRaw's loop from a valid position: send a read
      request, wait for a read response, keep at most the data length and
      at most what is left of the row, and advance the cursor as writeRaw
      does.  A round that goes on has received at least one byte; a round
      that ends does so with an error. */
  function ReadRawRound(pos: int, inbox: seq<Report>, len: nat, data: seq<byte>, log: seq<seq<byte>>): (r: Round)
    requires |data| < len && PosError(pos) == NoError
    ensures r.Finished? ==>
      && |data| <= |r.result.data| <= len && r.result.data[..|data|] == data
      && r.result.err != NoError && r.result.pos == pos + (|r.result.data| - |data|)
    ensures r.Continue? ==>
      && |data| < |r.data| <= len && r.data[..|data|] == data
      && r.pos == pos + (|r.data| - |data|)
  {
    var m := Min(len - |data|, Min(Remaining(pos), InputReportDataLen));
    var got := Recv(inbox, ReadCmd);
    if !got.found then Finished(ReadResult(data, Stall, pos, log + [ReadCmd], got.rest))
    else
      var chunk := Payload(got.report, ReadResponsePrefix)[..m];
      assert (data + chunk)[..|data|] == data;
      if PosError(pos + m) != NoError then
        Finished(ReadResult(data + chunk, PosError(pos + m), pos + m, log + [ReadCmd], got.rest))
      else
        Continue(pos + m, got.rest, data + chunk, log + [ReadCmd] + [MoveCmd(pos + m)])
  }

  /** readRaw's loop filling a buffer of length len, from the loop state
      (cursor pos, unread reports inbox, bytes data received, commands
      sent so far): rounds go on while bytes are wanted and the cursor is
      valid. */
  function ReadRawLoop(pos: int, inbox: seq<Report>, len: nat, data: seq<byte>, log: seq<seq<byte>>): (r: ReadResult)
    requires |data| <= len
    ensures |data| <= |r.data| <= len && r.data[..|data|] == data
    ensures r.err == NoError ==> |r.data| == len
    ensures r.pos == pos + (|r.data| - |data|)
    decreases len - |data|
  {
    if |data| == len then ReadResult(data, NoError, pos, log, inbox)
    else if PosError(pos) != NoError then ReadResult(data, PosError(pos), pos, log, inbox)
    else
      match ReadRawRound(pos, inbox, len, data, log)
      case Finished(r) => r
      case Continue(pos', inbox', data', log') =>
        var r := ReadRawLoop(pos', inbox', len, data', log');
        assert r.data[..|data|] == r.data[..|data'|][..|data|];
        r
  }

  /** readRaw into a fresh buffer of length len from cursor pos, after the
      commands in log. */
  function ReadRawFrom(pos: int, inbox: seq<Report>, len: nat, log: seq<seq<byte>>): (r: ReadResult)
  {
    ReadRawLoop(pos, inbox, len, [], log)
  }

  /** Read's loop filling a buffer of length len, from the loop state
      (cursor pos, unread reports inbox, bytes out placed so far, err the
      error the last row read returned, commands sent so far): each round
      reads the rest of the current row into a fresh buffer, copies as
      much of it as fits (zeros where nothing was read) and adds a newline
      when the row was read in full and room is left. */
  function ReadLoop(pos: int, inbox: seq<Report>, len: nat, out: seq<byte>, err: Error, log: seq<seq<byte>>): (r: ReadResult)
    requires |out| <= len
    decreases len - |out|
  {
    if |out| == len then ReadResult(out, err, pos, log, inbox)
    else
      var rl := Remaining(pos);
      var row := ReadRawFrom(pos, inbox, rl, log);
      if row.err != NoError && row.err != EOF then
        ReadResult(out, row.err, row.pos, row.log, row.inbox)
      else
        var c := Min(len - |out|, rl);
        var filled := out + (row.data + Zeros(rl - |row.data|))[..c];
        var next := if |filled| < len && |row.data| == rl then filled + [Newline] else filled;
        ReadLoop(row.pos, row.inbox, len, next, row.err, row.log)
  }

  /** A round of Read's loop whose row read fails with a fault ends the
      loop with that fault. */
  lemma ReadLoopFault(pos: int, inbox: seq<Report>, len: nat, out: seq<byte>, err: Error, log: seq<seq<byte>>)
    requires |out| < len
    requires var row := ReadRawFrom(pos, inbox, Remaining(pos), log);
      row.err != NoError && row.err != EOF
    ensures var row := ReadRawFrom(pos, inbox, Remaining(pos), log);
      ReadLoop(pos, inbox, len, out, err, log) == ReadResult(out, row.err, row.pos, row.log, row.inbox)
  {
  }

  /** A round of Read's loop whose row read succeeds or reaches the end of
      the display goes on with the row's bytes (zeros where none were
      read) as far as they fit, and a newline when the whole row was read
      and room is left. */
  lemma ReadLoopRound(pos: int, inbox: seq<Report>, len: nat, out: seq<byte>, err: Error, log: seq<seq<byte>>,
                      chunk: seq<byte>, newline: bool)
    requires |out| < len
    requires var row := ReadRawFrom(pos, inbox, Remaining(pos), log);
      && (row.err == NoError || row.err == EOF)
      && chunk == (row.data + Zeros(Remaining(pos) - |row.data|))[..Min(len - |out|, Remaining(pos))]
      && newline == (|out| + |chunk| < len && |row.data| == Remaining(pos))
    ensures var row := ReadRawFrom(pos, inbox, Remaining(pos), log);
      ReadLoop(pos, inbox, len, out, err, log) ==
        ReadLoop(row.pos, row.inbox, len, if newline then out + chunk + [Newline] else out + chunk, row.err, row.log)
  {
  }

  /** Read into a buffer of length len from cursor pos, after the commands
      in log. */
  function ReadFrom(pos: int, inbox: seq<Report>, len: nat, log: seq<seq<byte>>): (r: ReadResult)
  {
    ReadLoop(pos, inbox, len, [], NoError, log)
  }

  /** A session with one display: the cursor the driver keeps, the reports
      sent to the device and the reports the device has delivered but the
      driver has not read yet. */
  class LCD {
    const cursor: Cursor
    ghost var sent: seq<seq<byte>>
    ghost var wire: seq<Report>
    var inbox: seq<Report>

    /** Every report on the wire is the output report framing the command
        sent at the same place. */
    ghost predicate Wired()
      reads this
    {
      |wire| == |sent| && forall i :: 0 <= i < |sent| ==> wire[i] == OutputReport(sent[i])
    }

    /** A freshly opened display: cursor at 0, nothing sent yet. */
    constructor (delivered: seq<Report>)
      ensures fresh(cursor) && cursor.pos == 0
      ensures sent == [] && wire == [] && inbox == delivered
      ensures Wired()
    {
      cursor := new Cursor();
      sent, wire := [], [];
      inbox := delivered;
    }

    /** Waits for the first input report that starts with the input report
        ID and `prefix`, dropping every other report read on the way, and
        copies its payload (after the prefix, before the checksum byte)
        into p[lo..hi], as much as fits. */
    method RecvInputReport(p: array<byte>, lo: nat, hi: nat, prefix: seq<byte>) returns (err: Error)
      requires lo <= hi <= p.Length
      requires Wired()
      modifies this, p
      ensures Wired()
      ensures var got := Recv(old(inbox), prefix);
        && inbox == got.rest
        && (got.found ==>
              && err == NoError
              && (forall j :: 0 <= j < lo || hi <= j < p.Length ==> p[j] == old(p[j]))
              && (forall j :: lo <= j < hi ==>
                    p[j] == if j - lo < |Payload(got.report, [InputReportID] + prefix)|
                            then Payload(got.report, [InputReportID] + prefix)[j - lo] else old(p[j])))
        && (!got.found ==> err == Stall && forall j :: 0 <= j < p.Length ==> p[j] == old(p[j]))
      ensures sent == old(sent) && wire == old(wire)
    {
      var q := [InputReportID] + prefix;
      ghost var all := inbox;
      while inbox != [] && !HasPrefix(inbox[0], q)
        invariant |inbox| <= |all| && inbox == all[|all| - |inbox|..]
        invariant FirstMatch(all, q) == (|all| - |inbox|) + FirstMatch(inbox, q)
        invariant sent == old(sent) && wire == old(wire) && p[..] == old(p[..])
      {
        inbox := inbox[1..];
      }
      if inbox == [] {
        err := Stall;
        return;
      }
      var b := inbox[0];
      inbox := inbox[1..];
      var payload := Payload(b, q);
      var _ := Copy(p, lo, hi, payload);
      err := NoError;
    }

    /** The exchange in a round of readRaw: sends a read request, waits
        for the read response and places the first m bytes of its payload
        after the n bytes already read. */
    method ReadChunk(p: array<byte>, n: nat, m: nat, ghost data: seq<byte>) returns (err: Error)
      requires Wired()
      requires n + m <= p.Length && m <= InputReportDataLen
      requires |data| == n && forall j :: 0 <= j < n ==> p[j] == data[j]
      modifies this, p
      ensures Wired()
      ensures sent == old(sent) + [ReadCmd] && inbox == Recv(old(inbox), ReadCmd).rest
      ensures var got := Recv(old(inbox), ReadCmd);
        && (got.found ==>
              && err == NoError
              && forall j :: 0 <= j < n + m ==> p[j] == (data + Payload(got.report, ReadResponsePrefix)[..m])[j])
        && (!got.found ==> err == Stall && forall j :: 0 <= j < p.Length ==> p[j] == old(p[j]))
      ensures forall j :: n + m <= j < p.Length ==> p[j] == old(p[j])
    {
      SendOutputReport(ReadCmd);
      ghost var got := Recv(inbox, ReadCmd);
      RecvFinds(inbox, ReadCmd);
      err := RecvInputReport(p, n, n + m, ReadCmd);
      if err == NoError {
        ghost var chunk := Payload(got.report, ReadResponsePrefix)[..m];
        forall j | 0 <= j < n + m
          ensures p[j] == (data + chunk)[j]
        {
          if j >= n {
            assert p[j] == Payload(got.report, ReadResponsePrefix)[j - n];
          }
        }
      }
    }

    /** One round of readRaw's loop from a valid cursor: a read request,
        then the first bytes of the response placed after the n bytes
        already read, then the cursor advanced over them; see
        ReadRawRound. */
    method ReadRawStep(p: array<byte>, n: nat, ghost data: seq<byte>) returns (m: nat, err: Error, ghost data': seq<byte>)
      requires Wired()
      requires n < p.Length && |data| == n && PosError(cursor.pos) == NoError
      requires forall j :: 0 <= j < n ==> p[j] == data[j]
      modifies this, cursor, p
      ensures Wired()
      ensures n + m <= p.Length && |data'| == n + m
      ensures forall j :: 0 <= j < n + m ==> p[j] == data'[j]
      ensures forall j :: n + m <= j < p.Length ==> p[j] == old(p[j])
      ensures ReadRawRound(old(cursor.pos), old(inbox), p.Length, data, old(sent)) ==
        if err == NoError then Continue(cursor.pos, inbox, data', sent)
        else Finished(ReadResult(data', err, cursor.pos, sent, inbox))
    {
      m := Min(p.Length - n, Min(Remaining(cursor.pos), InputReportDataLen));
      ghost var got := Recv(inbox, ReadCmd);
      err := ReadChunk(p, n, m, data);
      if err != NoError {
        m, data' := 0, data;
        return;
      }
      data' := data + Payload(got.report, ReadResponsePrefix)[..m];
      err := AdvanceCursor(m);
    }

    /** Frames the command bytes p as an output report and sends it. */
    method SendOutputReport(p: seq<byte>)
      requires Wired()
      modifies this
      ensures Wired()
      ensures sent == old(sent) + [p] && wire == old(wire) + [OutputReport(p)]
      ensures inbox == old(inbox)
    {
      var b := new byte[OutputReportLen](_ => 0);
      b[0] := OutputReportID;
      var c := Min(|p|, OutputReportLen - 2);
      for i := 0 to c
        modifies b
        invariant b[0] == OutputReportID
        invariant forall j :: 1 <= j < OutputReportLen ==> b[j] == if j - 1 < i then p[j - 1] else 0
      {
        b[1 + i] := p[i];
      }
      assert b[..] == [OutputReportID] + Fit(p, OutputReportCmdLen) + [0];
      b[OutputReportLen - 1] := ComputeChecksum(b);
      assert b[..] == OutputReport(p);
      sent, wire := sent + [p], wire + [b[..]];
    }

    /** Asks the display for its firmware version. */
    method Version() returns (s: string, err: Error)
      requires Wired()
      modifies this
      ensures Wired()
      ensures var got := Recv(old(inbox), [CmdVersion]);
        && sent == old(sent) + [[CmdVersion]]
        && inbox == got.rest
        && (got.found ==> err == NoError && s == FormatVersion(got.report[2], got.report[3]))
        && (!got.found ==> err == Stall && s == "")
    {
      var prefix := [CmdVersion];
      SendOutputReport(prefix);
      var b := new byte[InputReportCmdLen](_ => 0);
      ghost var got := Recv(inbox, prefix);
      err := RecvInputReport(b, 0, b.Length, prefix);
      if err != NoError {
        s := "";
        return;
      }
      PayloadAt(got.report, [InputReportID] + prefix, 0);
      PayloadAt(got.report, [InputReportID] + prefix, 1);
      s := FormatVersion(b[0], b[1]);
    }

    /** Clears the display and puts the cursor at 0. */
    method Clear()
      requires Wired()
      modifies this, cursor
      ensures Wired()
      ensures cursor.pos == 0
      ensures sent == old(sent) + [[CmdLCD, LcdControl, CtlClear]]
      ensures inbox == old(inbox)
    {
      var _ := cursor.Move(0, 0);
      SendOutputReport([CmdLCD, LcdControl, CtlClear]);
    }

    /** Puts the cursor at 0 without clearing. */
    method Home()
      requires Wired()
      modifies this, cursor
      ensures Wired()
      ensures cursor.pos == 0
      ensures sent == old(sent) + [[CmdLCD, LcdControl, CtlHome]]
      ensures inbox == old(inbox)
    {
      var _ := cursor.Move(0, 0);
      SendOutputReport([CmdLCD, LcdControl, CtlHome]);
    }

    /** Sets how the display shows its cursor; the position is untouched. */
    method SetCursor(state: byte)
      requires Wired()
      modifies this
      ensures Wired()
      ensures sent == old(sent) + [[CmdLCD, LcdControl, AddByte(CtlCursor, state)]]
      ensures inbox == old(inbox)
    {
      SendOutputReport([CmdLCD, LcdControl, AddByte(CtlCursor, state)]);
    }

    /** Moves the cursor by n cells; only a valid new position is sent. */
    method AdvanceCursor(n: int) returns (err: Error)
      requires Wired()
      modifies this, cursor
      ensures Wired()
      ensures cursor.pos == old(cursor.pos) + n
      ensures err == PosError(cursor.pos)
      ensures sent == old(sent) + if err == NoError then [MoveCmd(cursor.pos)] else []
      ensures inbox == old(inbox)
    {
      err := cursor.Advance(n);
      if err != NoError {
        return;
      }
      SendOutputReport(MoveCmd(cursor.pos));
    }

    /** Moves the cursor to line y, column x; only a valid position is sent. */
    method MoveCursor(y: int, x: int) returns (err: Error)
      requires Wired()
      modifies this, cursor
      ensures Wired()
      ensures cursor.pos == y * Columns + x
      ensures err == PosError(cursor.pos)
      ensures sent == old(sent) + if err == NoError then [MoveCmd(cursor.pos)] else []
      ensures inbox == old(inbox)
    {
      err := cursor.Move(y, x);
      if err != NoError {
        return;
      }
      SendOutputReport(MoveCmd(cursor.pos));
    }

    /** Writes p line by line, as the driver does; see WriteLoop. */
    method Write(p: seq<byte>) returns (n: int, err: Error)
      requires Wired()
      modifies this, cursor
      ensures Wired()
      ensures var w := WriteFrom(old(cursor.pos), p, old(sent));
        n == w.n && err == w.err && cursor.pos == w.pos && sent == w.log
      ensures inbox == old(inbox)
    {
      var lines := Split(p);
      n, err := 0, NoError;
      ghost var spec := WriteFrom(cursor.pos, p, sent);
      var i := 0;
      while i < |lines|
        invariant 0 <= i <= |lines|
        invariant err == NoError && inbox == old(inbox) && Wired()
        invariant spec == WriteLoop(cursor.pos, lines, i, n, sent)
      {
        n, err := WriteLine(lines, i, n);
        if err != NoError {
          return;
        }
        i := i + 1;
      }
    }

    /** One round of Write's loop: line i goes through writeRaw and, when
        it is not the last line and was shorter than what was left of its
        row, the rest of the row is filled with spaces and the newline
        after it is counted; see WriteLoop. */
    method WriteLine(lines: seq<seq<byte>>, i: nat, n: int) returns (n': int, err: Error)
      requires Wired()
      requires i < |lines|
      modifies this, cursor
      ensures Wired()
      ensures inbox == old(inbox)
      ensures WriteLoop(old(cursor.pos), lines, i, n, old(sent)) ==
        if err == NoError then WriteLoop(cursor.pos, lines, i + 1, n', sent)
        else WriteResult(n', err, cursor.pos, sent)
    {
      var remaining := Remaining(cursor.pos);
      var m;
      m, err := WriteRaw(lines[i]);
      n' := n + m;
      if err != NoError {
        return;
      }
      if i + 1 < |lines| && |lines[i]| < remaining {
        var pad := Repeat(Space, Remaining(cursor.pos));
        var padded;
        padded, err := WriteRaw(pad);
        if err != NoError {
          return;
        }
        n' := n' + 1;
      }
    }

    /** Writes p without regard to newlines; see WriteRawLoop. */
    method WriteRaw(p: seq<byte>) returns (n: int, err: Error)
      requires Wired()
      modifies this, cursor
      ensures Wired()
      ensures var w := WriteRawFrom(old(cursor.pos), p, old(sent));
        n == w.n && err == w.err && cursor.pos == w.pos && sent == w.log
      ensures inbox == old(inbox)
    {
      var d := Sanitize(p);
      n, err := 0, NoError;
      ghost var spec := WriteRawFrom(cursor.pos, p, sent);
      while n < |d|
        invariant 0 <= n <= |d|
        invariant err == NoError && inbox == old(inbox) && Wired()
        invariant spec == WriteRawLoop(cursor.pos, d, n, sent)
      {
        err := PosError(cursor.pos);
        if err != NoError {
          return;
        }
        var m;
        m, err := WriteRawStep(d, n);
        n := n + m;
        if err != NoError {
          return;
        }
      }
    }

    /** One round of writeRaw's loop from a valid cursor: the next chunk
        of d is sent and the cursor advanced over it; see WriteRawRound. */
    method WriteRawStep(d: seq<byte>, n: nat) returns (m: nat, err: Error)
      requires Wired()
      requires n < |d| && PosError(cursor.pos) == NoError
      modifies this, cursor
      ensures Wired()
      ensures inbox == old(inbox)
      ensures WriteRawRound(old(cursor.pos), d, n, old(sent)) ==
        if err == NoError then WriteContinue(cursor.pos, n + m, sent)
        else WriteFinished(WriteResult(n + m, err, cursor.pos, sent))
    {
      ghost var at, log := cursor.pos, sent;
      m := Min(|d| - n, Min(Remaining(cursor.pos), OutputReportDataLen));
      assert 1 <= m && n + m <= |d|;
      SendOutputReport(WriteCmd(d[n..n + m]));
      err := AdvanceCursor(m);
      WriteRawRoundSends(at, d, n, log, m, err, sent);
    }

    /** Reads p.Length bytes of display text; see ReadLoop. */
    method Read(p: array<byte>) returns (n: int, err: Error)
      requires Wired()
      modifies this, cursor, p
      ensures Wired()
      ensures var r := ReadFrom(old(cursor.pos), old(inbox), p.Length, old(sent));
        && n == |r.data| && err == r.err && cursor.pos == r.pos
        && sent == r.log && inbox == r.inbox && n <= p.Length
        && (forall j :: 0 <= j < n ==> p[j] == r.data[j])
        && (forall j :: n <= j < p.Length ==> p[j] == old(p[j]))
    {
      n, err := 0, NoError;
      ghost var out: seq<byte> := [];
      ghost var spec := ReadFrom(cursor.pos, inbox, p.Length, sent);
      while n < p.Length
        invariant 0 <= n <= p.Length && Wired()
        invariant |out| == n
        invariant forall j :: 0 <= j < n ==> p[j] == out[j]
        invariant forall j :: n <= j < p.Length ==> p[j] == old(p[j])
        invariant spec == ReadLoop(cursor.pos, inbox, p.Length, out, err, sent)
        decreases p.Length - n
      {
        var n';
        ghost var out';
        n', err, out' := ReadRow(p, n, out, err);
        if err != NoError && err != EOF {
          return;
        }
        n, out := n', out';
      }
    }

    /** One round of Read's loop: the rest of the current row is read into
        a fresh buffer, which is copied after the n bytes already placed,
        as far as it fits, followed by a newline when the whole row was
        read and room is left; see ReadLoop. */
    method ReadRow(p: array<byte>, n: nat, ghost out: seq<byte>, ghost err0: Error)
      returns (n': nat, err: Error, ghost out': seq<byte>)
      requires Wired()
      requires n < p.Length && |out| == n
      requires forall j :: 0 <= j < n ==> p[j] == out[j]
      modifies this, cursor, p
      ensures Wired()
      ensures err != NoError && err != EOF ==>
        && ReadLoop(old(cursor.pos), old(inbox), p.Length, out, err0, old(sent))
             == ReadResult(out, err, cursor.pos, sent, inbox)
        && forall j :: 0 <= j < p.Length ==> p[j] == old(p[j])
      ensures err == NoError || err == EOF ==>
        && n < n' <= p.Length && |out'| == n'
        && ReadLoop(old(cursor.pos), old(inbox), p.Length, out, err0, old(sent))
             == ReadLoop(cursor.pos, inbox, p.Length, out', err, sent)
        && (forall j :: 0 <= j < n' ==> p[j] == out'[j])
        && forall j :: n' <= j < p.Length ==> p[j] == old(p[j])
    {
      ghost var at, box, log := cursor.pos, inbox, sent;
      var b := new byte[Remaining(cursor.pos)](_ => 0);
      ghost var row := ReadRawFrom(at, box, b.Length, log);
      var m;
      m, err := ReadRaw(b);
      if err != NoError && err != EOF {
        ReadLoopFault(at, box, p.Length, out, err0, log);
        n', out' := n, out;
        return;
      }
      ghost var c := Min(p.Length - n, b.Length);
      ghost var chunk := (row.data + Zeros(b.Length - |row.data|))[..c];
      assert b[..c] == chunk;
      ghost var newline := n + c < p.Length && m == b.Length;
      n' := PutRow(p, n, b, m == b.Length, out);
      out' := if newline then out + chunk + [Newline] else out + chunk;
      ReadLoopRound(at, box, p.Length, out, err0, log, chunk, newline);
    }

    /** Reads p.Length bytes of display text, never more per report than
        the report data length or what is left of the row; see ReadRawLoop. */
    method ReadRaw(p: array<byte>) returns (n: int, err: Error)
      requires Wired()
      modifies this, cursor, p
      ensures Wired()
      ensures var r := ReadRawFrom(old(cursor.pos), old(inbox), p.Length, old(sent));
        && n == |r.data| && err == r.err && cursor.pos == r.pos
        && sent == r.log && inbox == r.inbox
        && (forall j :: 0 <= j < n ==> p[j] == r.data[j])
        && (forall j :: n <= j < p.Length ==> p[j] == old(p[j]))
    {
      n, err := 0, NoError;
      ghost var data: seq<byte> := [];
      ghost var at, box, log := cursor.pos, inbox, sent;
      while n < p.Length
        invariant 0 <= n <= p.Length && Wired()
        invariant err == NoError
        invariant |data| == n
        invariant forall j :: 0 <= j < n ==> p[j] == data[j]
        invariant forall j :: n <= j < p.Length ==> p[j] == old(p[j])
        invariant at == cursor.pos && box == inbox && log == sent
        invariant ReadRawFrom(old(cursor.pos), old(inbox), p.Length, old(sent)) == ReadRawLoop(at, box, p.Length, data, log)
      {
        err := PosError(cursor.pos);
        if err != NoError {
          return;
        }
        var m;
        ghost var data';
        m, err, data' := ReadRawStep(p, n, data);
        n, data := n + m, data';
        if err != NoError {
          return;
        }
        at, box, log := cursor.pos, inbox, sent;
      }
    }

    /** Waits for the next key report and decodes its two bytes. */
    method GetInput() returns (key: Key, err: Error)
      requires Wired()
      modifies this
      ensures Wired()
      ensures var got := Recv(old(inbox), [CmdKeyInput]);
        && sent == old(sent) && inbox == got.rest
        && (got.found ==> err == NoError && key == Key(got.report[2], got.report[3]))
        && (!got.found ==> err == Stall && key == Key(0, 0))
    {
      var prefix := [CmdKeyInput];
      var b := new byte[InputReportDataLen](_ => 0);
      ghost var got := Recv(inbox, prefix);
      err := RecvInputReport(b, 0, b.Length, prefix);
      if err != NoError {
        key := Key(0, 0);
        return;
      }
      PayloadAt(got.report, [InputReportID] + prefix, 0);
      PayloadAt(got.report, [InputReportID] + prefix, 1);
      key := Key(b[0], b[1]);
    }

    /** Turns the backlight off or on; nothing else changes. */
    method SetBacklight(state: byte)
      requires Wired()
      modifies this
      ensures Wired()
      ensures sent == old(sent) + [[CmdBacklight, state]]
      ensures inbox == old(inbox)
    {
      SendOutputReport([CmdBacklight, state]);
    }
  }
}
