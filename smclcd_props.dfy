/** What the display session promises, stated over the functions that
    specify its loops: exact counts, positions and command streams. */
module SmclcdProps {
  import opened Proto
  import opened Errors
  import opened Cursors
  import opened Smclcd

  // ---- writeRaw ----

  /** The command stream writeRaw sends for `text` from cursor `pos`:
      write commands, each carrying one to twelve bytes and no more than
      is left of the cursor's row, every one followed by a move to the
      cell after it unless that cell is past the display, in which case it
      is the last; their payloads put together are `text`. */
  predicate WriteFramed(pos: int, cmds: seq<seq<byte>>, text: seq<byte>)
    decreases |cmds|
  {
    if cmds == [] then text == []
    else
      var m := |cmds[0]| - 2;
      && 1 <= m <= Min(OutputReportDataLen, Remaining(pos)) && m <= |text|
      && cmds[0] == WriteCmd(text[..m])
      && if PosError(pos + m) != NoError then |cmds| == 1 && m == |text|
         else |cmds| >= 2 && cmds[1] == MoveCmd(pos + m) && WriteFramed(pos + m, cmds[2..], text[m..])
  }

  /** writeRaw's count, error and final position in closed form: from a
      valid position it writes as much of the text as the display has
      cells left, ends with EOF exactly when that is not all of it or the
      text reaches the last cell, and stops before sending anything when
      the position is already invalid. */
  lemma {:induction false} WriteRawLoopClosedForm(pos: int, d: seq<byte>, n: nat, log: seq<seq<byte>>)
    requires n <= |d|
    ensures var r := WriteRawLoop(pos, d, n, log);
      && (PosError(pos) != NoError && n < |d| ==> r == WriteResult(n, PosError(pos), pos, log))
      && (PosError(pos) == NoError ==>
            && r.n == n + Min(|d| - n, Lines * Columns - pos)
            && r.pos == pos + (r.n - n)
            && r.err == if pos + (|d| - n) >= Lines * Columns then EOF else NoError)
    decreases |d| - n
  {
    if n < |d| && PosError(pos) == NoError {
      var m := Min(|d| - n, Min(Remaining(pos), OutputReportDataLen));
      RemainingFillsRow(pos);
      assert pos + m <= Lines * Columns;
      match WriteRawRound(pos, d, n, log)
      case WriteFinished(r) =>
      case WriteContinue(pos', n', log') =>
        WriteRawLoopClosedForm(pos', d, n', log');
    }
  }

  /** A chunk that fits the row and leaves the cursor valid, its move,
      then the framing of the rest of the text, frame the whole text. */
  lemma WriteFramedStep(pos: int, chunk: seq<byte>, rest: seq<seq<byte>>, text: seq<byte>)
    requires 1 <= |chunk| <= Min(OutputReportDataLen, Remaining(pos))
    requires PosError(pos + |chunk|) == NoError
    requires WriteFramed(pos + |chunk|, rest, text)
    ensures WriteFramed(pos, [WriteCmd(chunk), MoveCmd(pos + |chunk|)] + rest, chunk + text)
  {
    var cmds := [WriteCmd(chunk), MoveCmd(pos + |chunk|)] + rest;
    assert |cmds[0]| - 2 == |chunk|;
    assert (chunk + text)[..|chunk|] == chunk;
    assert (chunk + text)[|chunk|..] == text;
    assert cmds[2..] == rest;
  }

  /** The length of the chunk writeRaw sends next, n bytes into d. */
  function ChunkLen(pos: int, d: seq<byte>, n: nat): (r: int)
  {
    Min(|d| - n, Min(Remaining(pos), OutputReportDataLen))
  }

  /** The chunk and the move a round of writeRaw's loop sends when it
      leaves the cursor valid. */
  function RoundCmds(pos: int, d: seq<byte>, n: nat): (r: seq<seq<byte>>)
    requires n < |d| && PosError(pos) == NoError
  {
    var m := ChunkLen(pos, d, n);
    [WriteCmd(d[n..n + m]), MoveCmd(pos + m)]
  }

  /** A round of writeRaw's loop that leaves the cursor valid: the loop
      goes on after the chunk and the move. */
  lemma WriteRawLoopGoesOn(pos: int, d: seq<byte>, n: nat, log: seq<seq<byte>>)
    requires n < |d| && PosError(pos) == NoError && PosError(pos + ChunkLen(pos, d, n)) == NoError
    ensures var m := ChunkLen(pos, d, n);
      WriteRawLoop(pos, d, n, log) == WriteRawLoop(pos + m, d, n + m, log + RoundCmds(pos, d, n))
  {
    var m := ChunkLen(pos, d, n);
    assert log + [WriteCmd(d[n..n + m])] + [MoveCmd(pos + m)] == log + RoundCmds(pos, d, n);
  }

  /** A round of writeRaw's loop that takes the cursor off the display
      ends the loop after the chunk. */
  lemma WriteRawLoopEnds(pos: int, d: seq<byte>, n: nat, log: seq<seq<byte>>)
    requires n < |d| && PosError(pos) == NoError && PosError(pos + ChunkLen(pos, d, n)) != NoError
    ensures var m := ChunkLen(pos, d, n);
      WriteRawLoop(pos, d, n, log) == WriteResult(n + m, PosError(pos + m), pos + m, log + [WriteCmd(d[n..n + m])])
  {
  }

  /** The result r of writeRaw from n bytes into d, after the commands in
      log: it counts no more than the text, keeps log at its head, and the
      commands after log frame the text it counts. */
  predicate FramedAfter(pos: int, d: seq<byte>, n: nat, log: seq<seq<byte>>, r: WriteResult)
  {
    && n <= r.n <= |d| && |log| <= |r.log| && r.log[..|log|] == log
    && WriteFramed(pos, r.log[|log|..], d[n..r.n])
  }

  /** A log that starts with log + cmds starts with log, and after log
      come cmds and the rest. */
  lemma LogPrefix(l: seq<seq<byte>>, log: seq<seq<byte>>, cmds: seq<seq<byte>>)
    requires |log| + |cmds| <= |l| && l[..|log| + |cmds|] == log + cmds
    ensures l[..|log|] == log && l[|log|..] == cmds + l[|log| + |cmds|..]
  {
    var k := |log|;
    assert l[..k] == l[..k + |cmds|][..k];
    assert l[k..k + |cmds|] == l[..k + |cmds|][k..];
    assert l[k..] == l[k..k + |cmds|] + l[k + |cmds|..];
  }

  /** The inductive step of WriteRawLoopFramed for a round that goes on:
      the round's chunk and move, then what frames the rest. */
  lemma FramedAfterStep(pos: int, d: seq<byte>, n: nat, m: nat, log: seq<seq<byte>>, r: WriteResult)
    requires 1 <= m <= Min(OutputReportDataLen, Remaining(pos)) && n + m <= |d| && PosError(pos + m) == NoError
    requires FramedAfter(pos + m, d, n + m, log + [WriteCmd(d[n..n + m]), MoveCmd(pos + m)], r)
    ensures FramedAfter(pos, d, n, log, r)
  {
    var chunk := d[n..n + m];
    var cmds := [WriteCmd(chunk), MoveCmd(pos + m)];
    LogPrefix(r.log, log, cmds);
    WriteFramedStep(pos, chunk, r.log[|log| + 2..], d[n + m..r.n]);
    assert d[n..r.n] == chunk + d[n + m..r.n];
  }

  /** A round of writeRaw that goes on frames its chunk ahead of what the
      rest of the loop frames. */
  lemma FramedContinues(pos: int, d: seq<byte>, n: nat, log: seq<seq<byte>>)
    requires n < |d| && PosError(pos) == NoError && PosError(pos + ChunkLen(pos, d, n)) == NoError
    requires FramedAfter(pos + ChunkLen(pos, d, n), d, n + ChunkLen(pos, d, n), log + RoundCmds(pos, d, n),
               WriteRawLoop(pos + ChunkLen(pos, d, n), d, n + ChunkLen(pos, d, n), log + RoundCmds(pos, d, n)))
    ensures FramedAfter(pos, d, n, log, WriteRawLoop(pos, d, n, log))
  {
    var m := ChunkLen(pos, d, n);
    WriteRawLoopGoesOn(pos, d, n, log);
    FramedAfterStep(pos, d, n, m, log, WriteRawLoop(pos + m, d, n + m, log + RoundCmds(pos, d, n)));
  }

  /** A round of writeRaw that takes the cursor off the display frames
      its one chunk. */
  lemma FramedEnds(pos: int, d: seq<byte>, n: nat, log: seq<seq<byte>>)
    requires n < |d| && PosError(pos) == NoError && PosError(pos + ChunkLen(pos, d, n)) != NoError
    ensures FramedAfter(pos, d, n, log, WriteRawLoop(pos, d, n, log))
  {
    var m := ChunkLen(pos, d, n);
    var chunk := d[n..n + m];
    WriteRawLoopEnds(pos, d, n, log);
    var l := log + [WriteCmd(chunk)];
    assert l[..|log|] == log && l[|log|..] == [WriteCmd(chunk)];
    assert d[n..n + m][..m] == chunk;
  }

  /** writeRaw never counts more than the text, keeps the commands sent
      before it, and the commands it sends itself are the framing of the
      text it counts. */
  lemma {:induction false} WriteRawLoopFramed(pos: int, d: seq<byte>, n: nat, log: seq<seq<byte>>)
    requires n <= |d|
    ensures FramedAfter(pos, d, n, log, WriteRawLoop(pos, d, n, log))
    decreases |d| - n
  {
    if n < |d| && PosError(pos) == NoError {
      var m := ChunkLen(pos, d, n);
      if PosError(pos + m) == NoError {
        WriteRawLoopFramed(pos + m, d, n + m, log + RoundCmds(pos, d, n));
        FramedContinues(pos, d, n, log);
      } else {
        FramedEnds(pos, d, n, log);
      }
    } else {
      assert log[..|log|] == log && log[|log|..] == [] && d[n..n] == [];
    }
  }

  /** writeRaw from a valid position: it writes as much of the text as
      the display has cells left, advances the cursor over it, reports EOF
      exactly when the text reaches past the last cell or ends on it, keeps
      the commands sent before it, and sends the framing of the sanitized
      text it counts. */
  lemma WriteRawSends(pos: int, p: seq<byte>, log: seq<seq<byte>>)
    requires PosError(pos) == NoError
    ensures var r := WriteRawFrom(pos, p, log);
      && r.n == Min(|p|, Lines * Columns - pos) && r.pos == pos + r.n
      && (r.err == EOF <==> pos + |p| >= Lines * Columns)
      && (r.err == NoError <==> pos + |p| < Lines * Columns)
      && |log| <= |r.log| && r.log[..|log|] == log
      && WriteFramed(pos, r.log[|log|..], Sanitize(p)[..r.n])
  {
    var d := Sanitize(p);
    WriteRawLoopClosedForm(pos, d, 0, log);
    WriteRawLoopFramed(pos, d, 0, log);
    assert d[0..WriteRawFrom(pos, p, log).n] == d[..WriteRawFrom(pos, p, log).n];
  }

  /** writeRaw from an invalid position returns its error at once: nothing
      written, nothing sent, the cursor where it was. */
  lemma WriteRawInvalid(pos: int, p: seq<byte>, log: seq<seq<byte>>)
    requires PosError(pos) != NoError && |p| > 0
    ensures WriteRawFrom(pos, p, log) == WriteResult(0, PosError(pos), pos, log)
  {
    WriteRawLoopClosedForm(pos, Sanitize(p), 0, log);
  }

  /** writeRaw without an error has written the whole text. */
  lemma WriteRawComplete(pos: int, p: seq<byte>, log: seq<seq<byte>>)
    ensures var r := WriteRawFrom(pos, p, log);
      0 <= r.n <= |p| && (r.err == NoError ==> r.n == |p|)
  {
    WriteRawLoopClosedForm(pos, Sanitize(p), 0, log);
  }

  /** Printable text goes out unchanged. */
  lemma SanitizePrintable(p: seq<byte>)
    requires Printable(p)
    ensures Sanitize(p) == p
  {
  }

  /** Eighteen printable bytes from the first cell go out as chunks of
      twelve, four and two bytes (the first row, then the start of the
      second), each followed by a move, and leave the cursor at 18. */
  lemma WriteRawEighteen(p: seq<byte>)
    requires |p| == 18 && Printable(p)
    ensures WriteRawFrom(0, p, []) ==
      WriteResult(18, NoError, 18,
        [WriteCmd(p[..12]), MoveCmd(12), WriteCmd(p[12..16]), MoveCmd(16), WriteCmd(p[16..]), MoveCmd(18)])
  {
    SanitizePrintable(p);
    var l1 := [WriteCmd(p[..12]), MoveCmd(12)];
    var l2 := l1 + [WriteCmd(p[12..16]), MoveCmd(16)];
    var l3 := l2 + [WriteCmd(p[16..]), MoveCmd(18)];
    var r := WriteResult(18, NoError, 18, l3);
    assert p[16..18] == p[16..];
    assert WriteRawLoop(18, p, 18, l3) == r;
    assert WriteRawRound(16, p, 16, l2) == WriteContinue(18, 18, l3);
    assert WriteRawLoop(16, p, 16, l2) == r;
    assert WriteRawRound(12, p, 12, l1) == WriteContinue(16, 16, l2);
    assert WriteRawLoop(12, p, 12, l1) == r;
    assert WriteRawRound(0, p, 0, []) == WriteContinue(12, 12, l1);
    assert WriteRawLoop(0, p, 0, []) == r;
  }

  // ---- Write ----

  /** A line without newlines splits into itself. */
  lemma {:induction false} SplitOneLine(l: seq<byte>)
    requires Newline !in l
    ensures Split(l) == [l]
    decreases |l|
  {
    if l != [] {
      SplitOneLine(l[1..]);
      assert [l[0]] + l[1..] == l;
    }
  }

  /** A newline-free line, a newline and the rest split into the line,
      then the pieces of the rest. */
  lemma {:induction false} SplitFirstLine(l: seq<byte>, rest: seq<byte>)
    requires Newline !in l
    ensures Split(l + [Newline] + rest) == [l] + Split(rest)
    decreases |l|
  {
    var p := l + [Newline] + rest;
    if l == [] {
      assert p[1..] == rest;
    } else {
      assert p[1..] == l[1..] + [Newline] + rest;
      SplitFirstLine(l[1..], rest);
      assert [l[0]] + l[1..] == l;
    }
  }

  /** Splitting undoes joining newline-free lines (Split's contract states
      the other direction). */
  lemma {:induction false} SplitJoin(lines: seq<seq<byte>>)
    requires |lines| >= 1 && forall i :: 0 <= i < |lines| ==> Newline !in lines[i]
    ensures Split(Join(lines)) == lines
    decreases |lines|
  {
    if |lines| == 1 {
      SplitOneLine(lines[0]);
    } else {
      SplitJoin(lines[1..]);
      SplitFirstLine(lines[0], Join(lines[1..]));
      assert [lines[0]] + lines[1..] == lines;
    }
  }

  /** Joining lines from i on: the first line, a newline, then the rest. */
  lemma JoinFrom(lines: seq<seq<byte>>, i: nat)
    requires i + 1 < |lines|
    ensures Join(lines[i..]) == lines[i] + [Newline] + Join(lines[i + 1..])
  {
    assert lines[i..][1..] == lines[i + 1..];
  }

  /** Write never counts more than it was given: each line counts at most
      its own bytes and a newline at most one. */
  lemma {:induction false} WriteLoopBounded(pos: int, lines: seq<seq<byte>>, i: nat, n: int, log: seq<seq<byte>>)
    requires i <= |lines|
    ensures var r := WriteLoop(pos, lines, i, n, log);
      n <= r.n <= n + |Join(lines[i..])|
    decreases |lines| - i
  {
    if i < |lines| {
      var w := WriteRawFrom(pos, lines[i], log);
      WriteRawComplete(pos, lines[i], log);
      if i + 1 < |lines| {
        JoinFrom(lines, i);
      } else {
        assert lines[i..] == [lines[i]];
      }
      if w.err == NoError {
        if i + 1 < |lines| && |lines[i]| < Remaining(pos) {
          var pad := WriteRawFrom(w.pos, Repeat(Space, Remaining(w.pos)), w.log);
          if pad.err == NoError {
            WriteLoopBounded(pad.pos, lines, i + 1, n + w.n + 1, pad.log);
          }
        } else {
          WriteLoopBounded(w.pos, lines, i + 1, n + w.n, w.log);
        }
      }
    }
  }

  /** Write returns no more than the length of its input. */
  lemma WriteBounded(pos: int, p: seq<byte>, log: seq<seq<byte>>)
    ensures 0 <= WriteFrom(pos, p, log).n <= |p|
  {
    WriteLoopBounded(pos, Split(p), 0, 0, log);
    assert Split(p)[0..] == Split(p);
  }

  /** Text shorter than what is left of the row of a valid position is
      written whole, with no error, and the cursor moves past it. */
  lemma WriteRawShort(pos: int, p: seq<byte>, log: seq<seq<byte>>, w: WriteResult)
    requires PosError(pos) == NoError && pos + |p| < Lines * Columns
    requires w == WriteRawFrom(pos, p, log)
    ensures w.err == NoError && w.n == |p| && w.pos == pos + |p|
  {
    WriteRawSends(pos, p, log);
  }

  /** The padding of the rest of a row: k spaces from a valid position
      with k cells left on its row are written whole and framed, and the
      cursor lands on the row's end, with EOF when that is past the
      display. */
  lemma WriteRawSpaces(pos: int, k: int, log: seq<seq<byte>>, pad: WriteResult)
    requires PosError(pos) == NoError && k == Remaining(pos) && pos + k <= Lines * Columns
    requires pad == WriteRawFrom(pos, Repeat(Space, k), log)
    ensures pad.pos == pos + k && pad.err == PosError(pad.pos)
    ensures |log| <= |pad.log| && pad.log[..|log|] == log
    ensures WriteFramed(pos, pad.log[|log|..], Repeat(Space, k))
  {
    var spaces := Repeat(Space, k);
    SanitizePrintable(spaces);
    assert spaces[..k] == spaces;
    WriteRawSends(pos, spaces, log);
  }

  /** A line shorter than what is left of its row, from a valid position,
      then the padding: writeRaw writes all of the line, the padding fills
      the rest of the row with spaces framed as any text is, and the
      cursor lands on the start of the next row, which is past the display
      exactly when the line was on the last row. */
  lemma PaddedLine(pos: int, line: seq<byte>, log: seq<seq<byte>>, w: WriteResult, pad: WriteResult)
    requires PosError(pos) == NoError && |line| < Remaining(pos)
    requires w == WriteRawFrom(pos, line, log)
    requires pad == WriteRawFrom(w.pos, Repeat(Space, Remaining(w.pos)), w.log)
    ensures w.err == NoError && w.n == |line| && w.pos == pos + |line|
    ensures Remaining(w.pos) == Remaining(pos) - |line|
    ensures pad.pos == pos + Remaining(pos) && pad.pos % Columns == 0
    ensures pad.err == PosError(pad.pos) && (pad.err == NoError <==> pos < Columns)
    ensures |w.log| <= |pad.log| && pad.log[..|w.log|] == w.log
    ensures WriteFramed(w.pos, pad.log[|w.log|..], Repeat(Space, Remaining(pos) - |line|))
  {
    RowEnd(pos, |line|);
    WriteRawShort(pos, line, log, w);
    WriteRawSpaces(w.pos, Remaining(w.pos), w.log, pad);
  }

  /** A line that is not the last and is shorter than what is left of its
      row, from a valid position: after the line and its padding, Write
      goes on from the start of the next row with the line and its newline
      counted, unless that row start is past the display, where the
      padding's EOF ends Write. */
  lemma WritePadsRow(pos: int, lines: seq<seq<byte>>, i: nat, n: int, log: seq<seq<byte>>)
    requires PosError(pos) == NoError && i + 1 < |lines| && |lines[i]| < Remaining(pos)
    ensures var w := WriteRawFrom(pos, lines[i], log);
      var pad := WriteRawFrom(w.pos, Repeat(Space, Remaining(w.pos)), w.log);
      && pad.pos == pos + Remaining(pos) && pad.pos % Columns == 0
      && WriteLoop(pos, lines, i, n, log) ==
           if pos < Columns then WriteLoop(pad.pos, lines, i + 1, n + |lines[i]| + 1, pad.log)
           else WriteResult(n + |lines[i]|, EOF, pad.pos, pad.log)
  {
    var w := WriteRawFrom(pos, lines[i], log);
    var pad := WriteRawFrom(w.pos, Repeat(Space, Remaining(w.pos)), w.log);
    PaddedLine(pos, lines[i], log, w, pad);
  }

  /** A line that is not the last and fills exactly what is left of a row
      before the last cell: writeRaw sends it framed and leaves the cursor
      on the next row's first cell, no padding follows, and Write goes on
      from there without counting the newline it consumed, where the
      corrected Write counts it. */
  lemma WriteFillsRow(pos: int, lines: seq<seq<byte>>, i: nat, n: int, log: seq<seq<byte>>)
    requires PosError(pos) == NoError && i + 1 < |lines| && |lines[i]| == Remaining(pos)
    requires pos + Remaining(pos) < Lines * Columns
    ensures var w := WriteRawFrom(pos, lines[i], log);
      && w.err == NoError && w.n == |lines[i]| && w.pos == pos + Remaining(pos) && w.pos % Columns == 0
      && |log| <= |w.log| && w.log[..|log|] == log && WriteFramed(pos, w.log[|log|..], Sanitize(lines[i]))
      && WriteLoop(pos, lines, i, n, log) == WriteLoop(w.pos, lines, i + 1, n + |lines[i]|, w.log)
      && WriteCountedLoop(pos, lines, i, n, log) == WriteCountedLoop(w.pos, lines, i + 1, n + |lines[i]| + 1, w.log)
  {
    RemainingFillsRow(pos);
    WriteRawSends(pos, lines[i], log);
    assert Sanitize(lines[i])[..|lines[i]|] == Sanitize(lines[i]);
  }

  /** As written, Write does not count a newline after a line that filled
      the rest of its row: sixteen bytes and a newline from the first cell
      return a count of 16 and no error, one short of the input. */
  lemma WriteShortCount(line: seq<byte>, log: seq<seq<byte>>)
    requires |line| == Columns && Newline !in line
    ensures var p := line + [Newline];
      var r, c := WriteFrom(0, p, log), WriteCountedFrom(0, p, log);
      r.err == NoError && r.n == 16 && |p| == 17 && c == r.(n := 17)
  {
    var p := line + [Newline];
    SplitFirstLine(line, []);
    assert p + [] == p;
    var lines := Split(p);
    assert lines == [line, []];
    var w := WriteRawFrom(0, line, log);
    WriteRawSends(0, line, log);
    assert WriteLoop(w.pos, lines, 1, 16, w.log) == WriteResult(16, NoError, w.pos, w.log);
    assert WriteCountedLoop(w.pos, lines, 1, 17, w.log) == WriteResult(17, NoError, w.pos, w.log);
  }

  /** With every consumed newline counted, an error-free Write of lines
      from i on counts each of their bytes and each newline between them. */
  lemma {:induction false} WriteCountedLoopCounts(pos: int, lines: seq<seq<byte>>, i: nat, n: int, log: seq<seq<byte>>)
    requires i <= |lines|
    ensures var r := WriteCountedLoop(pos, lines, i, n, log);
      n <= r.n <= n + |Join(lines[i..])| && (r.err == NoError ==> r.n == n + |Join(lines[i..])|)
    decreases |lines| - i
  {
    if i < |lines| {
      var w := WriteRawFrom(pos, lines[i], log);
      WriteRawComplete(pos, lines[i], log);
      if i + 1 < |lines| {
        JoinFrom(lines, i);
      } else {
        assert lines[i..] == [lines[i]];
      }
      if w.err == NoError {
        if i + 1 < |lines| && |lines[i]| < Remaining(pos) {
          var pad := WriteRawFrom(w.pos, Repeat(Space, Remaining(w.pos)), w.log);
          if pad.err == NoError {
            WriteCountedLoopCounts(pad.pos, lines, i + 1, n + w.n + 1, pad.log);
          }
        } else if i + 1 < |lines| {
          WriteCountedLoopCounts(w.pos, lines, i + 1, n + w.n + 1, w.log);
        } else {
          WriteCountedLoopCounts(w.pos, lines, i + 1, n + w.n, w.log);
        }
      }
    }
  }

  /** Counting every newline changes only the count: the corrected loop
      sends the same commands, ends at the same cursor with the same error,
      and counts at least as much as the loop as written. */
  lemma {:induction false} WriteCountedAgrees(pos: int, lines: seq<seq<byte>>, i: nat, n: int, n0: int, log: seq<seq<byte>>)
    requires i <= |lines| && n0 <= n
    ensures var c, w := WriteCountedLoop(pos, lines, i, n, log), WriteLoop(pos, lines, i, n0, log);
      c.err == w.err && c.pos == w.pos && c.log == w.log && c.n - w.n >= n - n0
    decreases |lines| - i
  {
    if i < |lines| {
      var w := WriteRawFrom(pos, lines[i], log);
      if w.err == NoError {
        if i + 1 < |lines| && |lines[i]| < Remaining(pos) {
          var pad := WriteRawFrom(w.pos, Repeat(Space, Remaining(w.pos)), w.log);
          if pad.err == NoError {
            WriteCountedAgrees(pad.pos, lines, i + 1, n + w.n + 1, n0 + w.n + 1, pad.log);
          }
        } else if i + 1 < |lines| {
          WriteCountedAgrees(w.pos, lines, i + 1, n + w.n + 1, n0 + w.n, w.log);
        } else {
          WriteCountedAgrees(w.pos, lines, i + 1, n + w.n, n0 + w.n, w.log);
        }
      }
    }
  }

  /** The corrected count keeps the io.Writer contract: never more than
      the input, and all of it when there is no error. */
  lemma WriteCountedComplete(pos: int, p: seq<byte>, log: seq<seq<byte>>)
    ensures var r := WriteCountedFrom(pos, p, log);
      0 <= r.n <= |p| && (r.err == NoError ==> r.n == |p|)
  {
    WriteCountedLoopCounts(pos, Split(p), 0, 0, log);
    assert Split(p)[0..] == Split(p);
  }

  /** Printable text has no newline. */
  lemma PrintableHasNoNewline(t: seq<byte>)
    requires Printable(t)
    ensures Newline !in t
  {
  }

  /** Printable text that fits the row and one report, and does not reach
      the last cell, goes out as one chunk and one move. */
  lemma WriteRawOneChunk(pos: int, t: seq<byte>, log: seq<seq<byte>>)
    requires 0 <= pos && 1 <= |t| <= Min(OutputReportDataLen, Remaining(pos))
    requires pos + |t| < Lines * Columns && Printable(t)
    ensures WriteRawFrom(pos, t, log) ==
      WriteResult(|t|, NoError, pos + |t|, log + [WriteCmd(t), MoveCmd(pos + |t|)])
  {
    SanitizePrintable(t);
    assert t[0..|t|] == t;
    var log' := log + [WriteCmd(t)] + [MoveCmd(pos + |t|)];
    assert log' == log + [WriteCmd(t), MoveCmd(pos + |t|)];
    var r := WriteResult(|t|, NoError, pos + |t|, log');
    assert WriteRawLoop(pos + |t|, t, |t|, log') == r;
    assert WriteRawRound(pos, t, 0, log) == WriteContinue(pos + |t|, |t|, log');
    assert WriteRawLoop(pos, t, 0, log) == r;
  }

  /** Fourteen spaces from cell 2 go out as chunks of twelve and two,
      each followed by a move, and leave the cursor at the next row. */
  lemma WriteRawPadRow(log: seq<seq<byte>>)
    ensures WriteRawFrom(2, Repeat(Space, 14), log) ==
      WriteResult(14, NoError, 16,
        log + [WriteCmd(Repeat(Space, 12)), MoveCmd(14), WriteCmd(Repeat(Space, 2)), MoveCmd(16)])
  {
    var d := Repeat(Space, 14);
    SanitizePrintable(d);
    assert d[0..12] == Repeat(Space, 12) && d[12..14] == Repeat(Space, 2);
    var l1 := log + [WriteCmd(Repeat(Space, 12))] + [MoveCmd(14)];
    var l2 := l1 + [WriteCmd(Repeat(Space, 2))] + [MoveCmd(16)];
    assert l2 == log + [WriteCmd(Repeat(Space, 12)), MoveCmd(14), WriteCmd(Repeat(Space, 2)), MoveCmd(16)];
    var r := WriteResult(14, NoError, 16, l2);
    assert WriteRawLoop(16, d, 14, l2) == r;
    assert WriteRawRound(14, d, 12, l1) == WriteContinue(16, 14, l2);
    assert WriteRawLoop(14, d, 12, l1) == r;
    assert WriteRawRound(2, d, 0, log) == WriteContinue(14, 12, l1);
    assert WriteRawLoop(2, d, 0, log) == r;
  }

  /** Two two-byte lines from the first cell: the first line, the rest of
      its row padded with spaces in chunks of twelve and two, then the
      second line at the start of the second row.  The count is 5: four
      bytes and the newline, not the fourteen spaces. */
  lemma WriteTwoLines(ab: seq<byte>, cd: seq<byte>)
    requires |ab| == 2 && |cd| == 2 && Printable(ab) && Printable(cd)
    ensures var r := WriteResult(5, NoError, 18,
        [WriteCmd(ab), MoveCmd(2), WriteCmd(Repeat(Space, 12)), MoveCmd(14),
         WriteCmd(Repeat(Space, 2)), MoveCmd(16), WriteCmd(cd), MoveCmd(18)]);
      WriteFrom(0, ab + [Newline] + cd, []) == r && WriteCountedFrom(0, ab + [Newline] + cd, []) == r
  {
    PrintableHasNoNewline(ab);
    PrintableHasNoNewline(cd);
    SplitFirstLine(ab, cd);
    SplitOneLine(cd);
    var lines := [ab, cd];
    assert Split(ab + [Newline] + cd) == lines;
    var l1 := [WriteCmd(ab), MoveCmd(2)];
    WriteRawOneChunk(0, ab, []);
    assert [] + [WriteCmd(ab), MoveCmd(2)] == l1;
    WriteRawPadRow(l1);
    var l2 := l1 + [WriteCmd(Repeat(Space, 12)), MoveCmd(14), WriteCmd(Repeat(Space, 2)), MoveCmd(16)];
    WriteRawOneChunk(16, cd, l2);
    var l3 := l2 + [WriteCmd(cd), MoveCmd(18)];
    assert WriteLoop(18, lines, 2, 5, l3) == WriteResult(5, NoError, 18, l3);
    assert WriteLoop(16, lines, 1, 3, l2) == WriteResult(5, NoError, 18, l3);
    assert WriteLoop(0, lines, 0, 0, []) == WriteResult(5, NoError, 18, l3);
    assert WriteCountedLoop(18, lines, 2, 5, l3) == WriteResult(5, NoError, 18, l3);
    assert WriteCountedLoop(16, lines, 1, 3, l2) == WriteResult(5, NoError, 18, l3);
    assert WriteCountedLoop(0, lines, 0, 0, []) == WriteResult(5, NoError, 18, l3);
  }

  // ---- readRaw and Read ----

  /** A round of readRaw sends one read request and keeps at most a
      report's data and at most what is left of the row; a round that goes
      on also moves the device cursor to the valid cell after the chunk. */
  lemma ReadRawRoundSends(pos: int, inbox: seq<Report>, len: nat, data: seq<byte>, log: seq<seq<byte>>)
    requires |data| < len && PosError(pos) == NoError
    ensures var r := ReadRawRound(pos, inbox, len, data, log);
      && (r.Continue? ==>
            && |r.data| - |data| <= Min(InputReportDataLen, Remaining(pos))
            && PosError(r.pos) == NoError && r.log == log + [ReadCmd, MoveCmd(r.pos)])
      && (r.Finished? ==>
            && |r.result.data| - |data| <= Min(InputReportDataLen, Remaining(pos))
            && r.result.log == log + [ReadCmd])
  {
    var r := ReadRawRound(pos, inbox, len, data, log);
    if r.Continue? {
      assert log + [ReadCmd] + [MoveCmd(r.pos)] == log + [ReadCmd, MoveCmd(r.pos)];
    }
  }

  /** Every report in the inbox is a read response. */
  predicate AllReadResponses(inbox: seq<Report>)
  {
    forall k :: 0 <= k < |inbox| ==> HasPrefix(inbox[k], ReadResponsePrefix)
  }

  /** The first report of an inbox of read responses answers the next
      read request; the rest stay. */
  lemma RecvReadResponse(inbox: seq<Report>)
    requires |inbox| >= 1 && HasPrefix(inbox[0], ReadResponsePrefix)
    ensures Recv(inbox, ReadCmd) == Received(true, inbox[0], inbox[1..])
    ensures |Payload(inbox[0], ReadResponsePrefix)| == InputReportDataLen
  {
    assert FirstMatch(inbox, [InputReportID] + ReadCmd) == 0;
  }

  /** readRaw's count, error and final position in closed form when the
      device answers every request: from a valid position it reads as many
      bytes as are wanted and the display has cells left, ends with EOF
      exactly when that reaches the last cell, and stops before sending
      anything when the position is already invalid. */
  lemma {:induction false} ReadRawLoopClosedForm(pos: int, inbox: seq<Report>, len: nat, data: seq<byte>, log: seq<seq<byte>>)
    requires |data| <= len && len - |data| <= |inbox| && AllReadResponses(inbox)
    ensures var r := ReadRawLoop(pos, inbox, len, data, log);
      && (PosError(pos) != NoError && |data| < len ==> r == ReadResult(data, PosError(pos), pos, log, inbox))
      && (PosError(pos) == NoError ==>
            && |r.data| == |data| + Min(len - |data|, Lines * Columns - pos)
            && r.err == if pos + (len - |data|) >= Lines * Columns then EOF else NoError)
    decreases len - |data|
  {
    if |data| < len && PosError(pos) == NoError {
      RecvReadResponse(inbox);
      var m := Min(len - |data|, Min(Remaining(pos), InputReportDataLen));
      RemainingFillsRow(pos);
      assert pos + m <= Lines * Columns;
      match ReadRawRound(pos, inbox, len, data, log)
      case Finished(r) =>
      case Continue(pos', inbox', data', log') =>
        assert inbox' == inbox[1..];
        ReadRawLoopClosedForm(pos', inbox', len, data', log');
    }
  }

  /** The bytes of a row read as two chunks: twelve from the payload of
      the first read response, four from the second. */
  function RowBytes(a: Report, b: Report): (r: seq<byte>)
    requires HasPrefix(a, ReadResponsePrefix) && HasPrefix(b, ReadResponsePrefix)
  {
    Payload(a, ReadResponsePrefix)[..12] + Payload(b, ReadResponsePrefix)[..4]
  }

  /** readRaw of a whole row from its first cell, answered by two read
      responses: twelve bytes of the first, four of the second, with a
      move after the first chunk and, unless the row is the last, after
      the second. */
  lemma ReadRowOfTwo(pos: int, inbox: seq<Report>, log: seq<seq<byte>>)
    requires pos == 0 || pos == Columns
    requires |inbox| >= 2 && HasPrefix(inbox[0], ReadResponsePrefix) && HasPrefix(inbox[1], ReadResponsePrefix)
    ensures ReadRawFrom(pos, inbox, Columns, log) ==
      ReadResult(RowBytes(inbox[0], inbox[1]), PosError(pos + Columns), pos + Columns,
        log + [ReadCmd, MoveCmd(pos + 12), ReadCmd] + (if pos == 0 then [MoveCmd(Columns)] else []), inbox[2..])
  {
    RecvReadResponse(inbox);
    RecvReadResponse(inbox[1..]);
    assert inbox[1..][1..] == inbox[2..];
    var c0 := Payload(inbox[0], ReadResponsePrefix)[..12];
    var d := [] + c0;
    var l1 := log + [ReadCmd] + [MoveCmd(pos + 12)];
    assert ReadRawRound(pos, inbox, Columns, [], log) == Continue(pos + 12, inbox[1..], d, l1);
    var d' := d + Payload(inbox[1], ReadResponsePrefix)[..4];
    assert d' == RowBytes(inbox[0], inbox[1]);
    if pos == 0 {
      var l2 := l1 + [ReadCmd] + [MoveCmd(16)];
      assert ReadRawRound(12, inbox[1..], Columns, d, l1) == Continue(16, inbox[2..], d', l2);
      assert ReadRawLoop(16, inbox[2..], Columns, d', l2) == ReadResult(d', NoError, 16, l2, inbox[2..]);
      assert ReadRawLoop(12, inbox[1..], Columns, d, l1) == ReadResult(d', NoError, 16, l2, inbox[2..]);
    } else {
      var l2 := l1 + [ReadCmd];
      assert ReadRawRound(28, inbox[1..], Columns, d, l1) == Finished(ReadResult(d', EOF, 32, l2, inbox[2..]));
      assert ReadRawLoop(28, inbox[1..], Columns, d, l1) == ReadResult(d', EOF, 32, l2, inbox[2..]);
    }
  }

  /** A round of Read from the first cell of a row with room for more
      than the row: the row as ReadRowOfTwo reads it, then a newline. */
  lemma ReadLoopFullRow(pos: int, inbox: seq<Report>, len: nat, out: seq<byte>, err: Error, log: seq<seq<byte>>,
                        out': seq<byte>, log': seq<seq<byte>>)
    requires pos == 0 || pos == Columns
    requires |inbox| >= 2 && HasPrefix(inbox[0], ReadResponsePrefix) && HasPrefix(inbox[1], ReadResponsePrefix)
    requires |out| + Columns < len && out' == out + RowBytes(inbox[0], inbox[1]) + [Newline]
    requires log' == log + [ReadCmd, MoveCmd(pos + 12), ReadCmd] + (if pos == 0 then [MoveCmd(Columns)] else [])
    ensures ReadLoop(pos, inbox, len, out, err, log) == ReadLoop(pos + Columns, inbox[2..], len, out', PosError(pos + Columns), log')
  {
    var row := RowBytes(inbox[0], inbox[1]);
    ReadRowOfTwo(pos, inbox, log);
    assert (row + Zeros(0))[..16] == row;
    ReadLoopRound(pos, inbox, len, out, err, log, row, true);
  }

  /** Reading 34 bytes from the first cell, answered by four read
      responses: the first row, a newline, the second row, a newline, and
      EOF with the cursor past the last cell. */
  lemma ReadThirtyFour(inbox: seq<Report>, log: seq<seq<byte>>)
    requires |inbox| == 4 && AllReadResponses(inbox)
    ensures ReadFrom(0, inbox, 34, log) ==
      ReadResult(RowBytes(inbox[0], inbox[1]) + [Newline] + RowBytes(inbox[2], inbox[3]) + [Newline], EOF, 32,
        log + [ReadCmd, MoveCmd(12), ReadCmd, MoveCmd(16), ReadCmd, MoveCmd(28), ReadCmd], [])
  {
    assert HasPrefix(inbox[0], ReadResponsePrefix) && HasPrefix(inbox[1], ReadResponsePrefix);
    assert HasPrefix(inbox[2], ReadResponsePrefix) && HasPrefix(inbox[3], ReadResponsePrefix);
    var r1, r2 := RowBytes(inbox[0], inbox[1]), RowBytes(inbox[2], inbox[3]);
    var l1 := log + [ReadCmd, MoveCmd(12), ReadCmd, MoveCmd(16)];
    var l2 := log + [ReadCmd, MoveCmd(12), ReadCmd, MoveCmd(16), ReadCmd, MoveCmd(28), ReadCmd];
    var out1 := r1 + [Newline];
    var out2 := r1 + [Newline] + r2 + [Newline];
    var rest := inbox[2..];
    assert rest[0] == inbox[2] && rest[1] == inbox[3] && rest[2..] == [];
    assert out1 == [] + r1 + [Newline] && out2 == out1 + r2 + [Newline] && |out2| == 34;
    assert l1 == log + [ReadCmd, MoveCmd(12), ReadCmd] + [MoveCmd(16)];
    assert l2 == l1 + [ReadCmd, MoveCmd(28), ReadCmd] + [];
    assert ReadLoop(32, [], 34, out2, EOF, l2) == ReadResult(out2, EOF, 32, l2, []);
    ReadLoopFullRow(16, rest, 34, out1, NoError, l1, out2, l2);
    ReadLoopFullRow(0, inbox, 34, [], NoError, log, out1, l1);
  }

  /** Read keeps the bytes it has placed and never places more than the
      buffer holds; it ends without a fault only with the buffer full. */
  lemma {:induction false} ReadLoopFills(pos: int, inbox: seq<Report>, len: nat, out: seq<byte>, err: Error, log: seq<seq<byte>>)
    requires |out| <= len
    ensures var r := ReadLoop(pos, inbox, len, out, err, log);
      && |out| <= |r.data| <= len && r.data[..|out|] == out
      && (r.err == NoError || r.err == EOF ==> |r.data| == len)
    decreases len - |out|
  {
    if |out| < len {
      var rl := Remaining(pos);
      var row := ReadRawFrom(pos, inbox, rl, log);
      if row.err == NoError || row.err == EOF {
        var c := Min(len - |out|, rl);
        var chunk := (row.data + Zeros(rl - |row.data|))[..c];
        var newline := |out| + |chunk| < len && |row.data| == rl;
        var next := if newline then out + chunk + [Newline] else out + chunk;
        assert |out| < |next| <= len && next[..|out|] == out;
        ReadLoopRound(pos, inbox, len, out, err, log, chunk, newline);
        ReadLoopFills(row.pos, row.inbox, len, next, row.err, row.log);
        var r := ReadLoop(row.pos, row.inbox, len, next, row.err, row.log);
        assert r.data[..|out|] == r.data[..|next|][..|out|];
      } else {
        ReadLoopFault(pos, inbox, len, out, err, log);
      }
    }
  }

  /** Read returns a count no greater than the buffer, and fills all of
      it unless a fault stops it. */
  lemma ReadFills(pos: int, inbox: seq<Report>, len: nat, log: seq<seq<byte>>)
    ensures var r := ReadFrom(pos, inbox, len, log);
      |r.data| <= len && (r.err == NoError || r.err == EOF ==> |r.data| == len)
  {
    ReadLoopFills(pos, inbox, len, [], NoError, log);
  }

  /** The row read of a round of Read when the device answers every
      request: the whole rest of the row is read and the cursor lands on
      the next row start. */
  lemma ReadRowAnswered(pos: int, inbox: seq<Report>, log: seq<seq<byte>>, row: ReadResult)
    requires PosError(pos) == NoError && Remaining(pos) <= |inbox| && AllReadResponses(inbox)
    requires row == ReadRawFrom(pos, inbox, Remaining(pos), log)
    ensures |row.data| == Remaining(pos) && row.pos == pos + Remaining(pos)
    ensures row.pos % Columns == 0 && row.err == PosError(row.pos)
  {
    RowEnd(pos, 0);
    ReadRawLoopClosedForm(pos, inbox, Remaining(pos), [], log);
  }

  /** A round of Read from a valid position when the device answers every
      request: the whole rest of the row is read, as much of it as fits
      is placed, and a newline follows exactly when room is left after it;
      Read goes on from the next row start. */
  lemma ReadLoopNewline(pos: int, inbox: seq<Report>, len: nat, out: seq<byte>, err: Error, log: seq<seq<byte>>)
    requires PosError(pos) == NoError && |out| < len
    requires Remaining(pos) <= |inbox| && AllReadResponses(inbox)
    ensures var row := ReadRawFrom(pos, inbox, Remaining(pos), log);
      var c := Min(len - |out|, Remaining(pos));
      && |row.data| == Remaining(pos) && row.pos == pos + Remaining(pos) && row.pos % Columns == 0
      && ReadLoop(pos, inbox, len, out, err, log) ==
           ReadLoop(row.pos, row.inbox, len,
             if |out| + c < len then out + row.data[..c] + [Newline] else out + row.data[..c],
             row.err, row.log)
  {
    var row := ReadRawFrom(pos, inbox, Remaining(pos), log);
    ReadRowAnswered(pos, inbox, log, row);
    var c := Min(len - |out|, Remaining(pos));
    assert (row.data + Zeros(0))[..c] == row.data[..c];
    ReadLoopRound(pos, inbox, len, out, err, log, row.data[..c], |out| + c < len);
  }

  /** Once the cursor is past the last cell, Read fills the rest of the
      buffer with zero bytes, sends nothing and returns EOF. */
  lemma {:induction false} ReadAfterEnd(pos: int, inbox: seq<Report>, len: nat, out: seq<byte>, err: Error, log: seq<seq<byte>>)
    requires pos >= Lines * Columns && |out| < len
    ensures ReadLoop(pos, inbox, len, out, err, log) == ReadResult(out + Zeros(len - |out|), EOF, pos, log, inbox)
    decreases len - |out|
  {
    var rl := Remaining(pos);
    assert ReadRawFrom(pos, inbox, rl, log) == ReadResult([], EOF, pos, log, inbox);
    var c := Min(len - |out|, rl);
    assert ([] + Zeros(rl))[..c] == Zeros(c);
    var filled := out + Zeros(c);
    if |filled| < len {
      ReadAfterEnd(pos, inbox, len, filled, EOF, log);
      assert filled + Zeros(len - |filled|) == out + Zeros(len - |out|);
    }
  }

  /** When no read response is waiting, Read from a valid cursor sends one
      read request, drops every report, and stalls with nothing read. */
  lemma ReadStalls(pos: int, inbox: seq<Report>, len: nat, log: seq<seq<byte>>)
    requires PosError(pos) == NoError && len > 0
    requires forall k :: 0 <= k < |inbox| ==> !HasPrefix(inbox[k], ReadResponsePrefix)
    ensures ReadFrom(pos, inbox, len, log) == ReadResult([], Stall, pos, log + [ReadCmd], [])
  {
    RecvFinds(inbox, ReadCmd);
    assert ReadRawFrom(pos, inbox, Remaining(pos), log) == ReadResult([], Stall, pos, log + [ReadCmd], []);
  }

  // ---- commands ----

  /** The cursor display states give the control bytes 0C (off), 0D
      (block), 0E (underline) and 0F (both). */
  lemma CursorStateBytes()
    ensures AddByte(CtlCursor, CursorOff) == 0x0C && AddByte(CtlCursor, CursorBlock) == 0x0D
    ensures AddByte(CtlCursor, CursorUnderline) == 0x0E && AddByte(CtlCursor, CursorBoth) == 0x0F
  {
  }

  /** Every report a session has put on the wire starts with the output
      report ID and sums to zero modulo 256. */
  lemma WireReports(l: LCD)
    requires l.Wired()
    ensures forall i :: 0 <= i < |l.wire| ==> l.wire[i][0] == OutputReportID && ByteSum(l.wire[i]) == 0
  {
    forall i | 0 <= i < |l.wire|
      ensures l.wire[i][0] == OutputReportID && ByteSum(l.wire[i]) == 0
    {
      OutputReportShape(l.sent[i]);
    }
  }

  /** The value of a lower-case hex digit. */
  function DigitValue(c: char): (r: int)
  {
    if '0' <= c <= '9' then c as int - '0' as int
    else if 'a' <= c <= 'f' then c as int - 'a' as int + 10
    else -1
  }

  /** The value of a string of lower-case hex digits. */
  function HexValue(s: string): (r: int)
    decreases |s|
  {
    if s == [] then 0 else 16 * HexValue(s[..|s| - 1]) + DigitValue(s[|s| - 1])
  }

  /** A hex digit reads back as its value; only 0 prints as '0'. */
  lemma DigitRoundTrip(d: int)
    requires 0 <= d < 16
    ensures DigitValue(HexDigit(d)) == d && (HexDigit(d) == '0' <==> d == 0)
  {
  }

  /** The version bytes print as one or two lower-case hex digits with no
      leading zero, which read back as the byte. */
  lemma HexRoundTrip(v: byte)
    ensures 1 <= |Hex(v)| <= 2 && HexValue(Hex(v)) == v
    ensures |Hex(v)| == 2 ==> Hex(v)[0] != '0'
  {
    if v < 16 {
      DigitRoundTrip(v);
      assert Hex(v)[..0] == [];
    } else {
      DigitRoundTrip(v / 16);
      DigitRoundTrip(v % 16);
      var hi := [HexDigit(v / 16)];
      assert Hex(v)[..1] == hi && hi[..0] == [];
      assert HexValue(hi) == v / 16;
      assert HexValue(Hex(v)) == 16 * (v / 16) + v % 16;
    }
  }
}

