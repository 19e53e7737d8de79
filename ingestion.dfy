/** The GUI's ingestion of an elementary stream (MainWindow::process) and the
    decision ladder that precedes it (MainWindow::openFile).

    MainWindow::process reads the file in windows of at most 4 MiB, each window
    starting at the current `position`; it hands the window and `position` to
    the stream parser, advances `position` by the byte count the parser
    accepted and seeks back to it, so that a record straddling the end of a
    window is read again at the start of the next one. It stops when a read
    reaches the end of the file or when the user has closed the progress bar,
    and then rewrites the length cell of the last row of the info table as
    `position` minus the offset that row's text gives.

    The parser is external: it is a function of the window and its base
    offset that returns how many bytes it accepted and the rows its consumers
    appended to the info table. The user's closing of the progress bar is the
    sequence of answers the polls of `isVisible()` get. */
module Ingestion {
  import opened Common
  import OffsetCell

  /** The largest window one read asks for: 4 * (1 << 20) bytes. */
  const WindowSize: nat := 4 * 0x10_0000

  /** One row of the info table: the offset cell ("...(N)") and the length cell. */
  datatype Row = Row(offsetText: string, lengthText: string)

  /** What one parser call reports: the bytes it accepted from the front of
      the window, and the rows its consumers appended to the info table. */
  datatype Step = Step(accepted: nat, rows: seq<Row>)

  /** The external parser of one run, as a function of (window, base offset). */
  type Parser = (seq<uint8>, nat) -> Step

  /** One iteration of the window loop: where the window started, how many
      bytes it held and how many of them the parser accepted. */
  datatype Window = Window(start: nat, length: nat, accepted: nat)

  datatype Stop = EndOfFile | Cancelled

  /** Everything one run of the window loop produces: the final `position`,
      the windows in order, the values the progress bar was set to, the rows
      appended to the table, and why the loop stopped. */
  datatype Outcome = Outcome(position: nat, windows: seq<Window>, progress: seq<nat>,
                             rows: seq<Row>, stop: Stop)

  /** QFile::read(maxSize) with the cursor at `at`: the next bytes, at most
      `maxSize` of them, none at or past the end. */
  function ReadAt(data: seq<uint8>, at: nat, maxSize: nat): seq<uint8>
  {
    if at >= |data| then []
    else if at + maxSize <= |data| then data[at..at + maxSize]
    else data[at..]
  }

  /** The window the loop reads when `position` is `start`. */
  function WindowAt(data: seq<uint8>, start: nat): seq<uint8>
  {
    ReadAt(data, start, WindowSize)
  }

  /** What the loop needs of the parser on this file: it never accepts more
      than the window holds, and it accepts something of every full window
      that does not reach the end of the file (otherwise the loop reads the
      same window forever). */
  ghost predicate ParserContract(data: seq<uint8>, parse: Parser)
  {
    && (forall b: nat :: b < |data| ==> parse(WindowAt(data, b), b).accepted <= |WindowAt(data, b)|)
    && (forall b: nat :: b + WindowSize < |data| ==> parse(WindowAt(data, b), b).accepted > 0)
  }

  /** The progress bar value for `position` bytes of `size`: position * 100 / size,
      rounded down (PercentIsDivision), computed by repeated subtraction so that
      the proofs about the loop stay within linear arithmetic. */
  function Percent(position: nat, size: nat): nat
    requires size > 0
  {
    Quotient(100 * position, size)
  }

  /** Whole-number division by repeated subtraction. */
  function Quotient(x: nat, n: nat): nat
    requires n > 0
    decreases x
  {
    if x < n then 0 else 1 + Quotient(x - n, n)
  }

  /** The answer of the k-th poll of `isVisible()`; polls past the given
      answers find the bar still shown. */
  predicate Polled(visible: seq<bool>, k: nat)
  {
    k >= |visible| || visible[k]
  }

  /** The window loop, from loop head with the file cursor at `pos` and `k`
      polls already made. */
  function Run(data: seq<uint8>, parse: Parser, visible: seq<bool>, pos: nat, k: nat): (o: Outcome)
    requires ParserContract(data, parse) && pos <= |data|
    ensures pos <= o.position <= |data|
    decreases |data| - pos
  {
    if pos >= |data| then Outcome(pos, [], [], [], EndOfFile)
    else
      var w := WindowAt(data, pos);
      var step := parse(w, pos);
      var next := pos + step.accepted;
      var win := Window(pos, |w|, step.accepted);
      if pos + |w| >= |data| then
        Outcome(next, [win], [], step.rows, EndOfFile)
      else
        var percent := Percent(next, |data|);
        if !Polled(visible, k) then
          Outcome(next, [win], [percent], step.rows, Cancelled)
        else
          var rest := Run(data, parse, visible, next, k + 1);
          Outcome(rest.position, [win] + rest.windows, [percent] + rest.progress,
                  step.rows + rest.rows, rest.stop)
  }

  /** The loop as it runs: the outcome of carrying on from `pos` after the
      windows, progress values and rows already collected. Each iteration
      appends to them, as the loop appends to the info table. */
  ghost function Resume(data: seq<uint8>, parse: Parser, visible: seq<bool>, pos: nat, k: nat,
                        windows: seq<Window>, progress: seq<nat>, rows: seq<Row>): (o: Outcome)
    requires ParserContract(data, parse) && pos <= |data|
    decreases |data| - pos
  {
    if pos >= |data| then Outcome(pos, windows, progress, rows, EndOfFile)
    else
      var w := WindowAt(data, pos);
      var step := parse(w, pos);
      var next := pos + step.accepted;
      var win := Window(pos, |w|, step.accepted);
      if pos + |w| >= |data| then
        Outcome(next, windows + [win], progress, rows + step.rows, EndOfFile)
      else
        var percent := Percent(next, |data|);
        if !Polled(visible, k) then
          Outcome(next, windows + [win], progress + [percent], rows + step.rows, Cancelled)
        else
          Resume(data, parse, visible, next, k + 1, windows + [win], progress + [percent], rows + step.rows)
  }

  /** Carrying on from `pos` adds exactly what a run from `pos` produces. */
  lemma {:induction false} ResumeIsRun(data: seq<uint8>, parse: Parser, visible: seq<bool>, pos: nat, k: nat,
                                       windows: seq<Window>, progress: seq<nat>, rows: seq<Row>)
    requires ParserContract(data, parse) && pos <= |data|
    ensures var o := Run(data, parse, visible, pos, k);
      Resume(data, parse, visible, pos, k, windows, progress, rows)
        == Outcome(o.position, windows + o.windows, progress + o.progress, rows + o.rows, o.stop)
    decreases |data| - pos
  {
    if pos < |data| {
      var w := WindowAt(data, pos);
      var step := parse(w, pos);
      var next := pos + step.accepted;
      var win := Window(pos, |w|, step.accepted);
      if pos + |w| < |data| && Polled(visible, k) {
        var percent := Percent(next, |data|);
        var o := Run(data, parse, visible, next, k + 1);
        ResumeIsRun(data, parse, visible, next, k + 1, windows + [win], progress + [percent], rows + step.rows);
        assert windows + [win] + o.windows == windows + ([win] + o.windows);
        assert progress + [percent] + o.progress == progress + ([percent] + o.progress);
        assert rows + step.rows + o.rows == rows + (step.rows + o.rows);
      }
    }
  }

  // ---------------------------------------------------------------------
  // No byte skipped, none repeated

  /** The windows `ws` tile the accepted bytes from `from` to `to`: each one
      starts where the previous one's accepted bytes ended, is exactly as
      long as a read from there can be, is not empty, and has no more
      accepted than it holds. */
  ghost predicate Chain(data: seq<uint8>, ws: seq<Window>, from: nat, to: nat)
    decreases |ws|
  {
    if ws == [] then from == to
    else
      && from < |data|
      && ws[0].start == from
      && ws[0].length == |WindowAt(data, from)|
      && ws[0].accepted <= ws[0].length
      && Chain(data, ws[1..], from + ws[0].accepted, to)
  }

  /** The bytes the parser accepted, window after window. */
  function Delivered(data: seq<uint8>, ws: seq<Window>): seq<uint8>
  {
    if ws == [] then []
    else
      var w := ws[0];
      (if w.start + w.accepted <= |data| then data[w.start..w.start + w.accepted] else [])
      + Delivered(data, ws[1..])
  }

  function TotalAccepted(ws: seq<Window>): nat
  {
    if ws == [] then 0 else ws[0].accepted + TotalAccepted(ws[1..])
  }

  lemma {:induction false} ChainDelivers(data: seq<uint8>, ws: seq<Window>, from: nat, to: nat)
    requires from <= |data| && Chain(data, ws, from, to)
    ensures from <= to <= |data|
    ensures Delivered(data, ws) == data[from..to]
    ensures TotalAccepted(ws) == to - from
    decreases |ws|
  {
    if ws != [] {
      var next := from + ws[0].accepted;
      ChainDelivers(data, ws[1..], next, to);
      assert data[from..to] == data[from..next] + data[next..to];
    }
  }

  lemma {:induction false} RunChain(data: seq<uint8>, parse: Parser, visible: seq<bool>, pos: nat, k: nat)
    requires ParserContract(data, parse) && pos <= |data|
    ensures Chain(data, Run(data, parse, visible, pos, k).windows, pos, Run(data, parse, visible, pos, k).position)
    decreases |data| - pos
  {
    var o := Run(data, parse, visible, pos, k);
    if pos < |data| {
      var w := WindowAt(data, pos);
      var next := pos + parse(w, pos).accepted;
      if pos + |w| < |data| && Polled(visible, k) {
        RunChain(data, parse, visible, next, k + 1);
        assert o.windows[1..] == Run(data, parse, visible, next, k + 1).windows;
      } else {
        assert o.windows[1..] == [];
      }
    }
  }

  /** The bytes the parser accepted over a whole run are exactly the first
      `position` bytes of the file, and `position` is the sum of the
      accepted counts: no byte is skipped and none is accepted twice. */
  lemma NoByteSkippedOrRepeated(data: seq<uint8>, parse: Parser, visible: seq<bool>)
    requires ParserContract(data, parse)
    ensures var o := Run(data, parse, visible, 0, 0);
      && o.position <= |data|
      && Delivered(data, o.windows) == data[..o.position]
      && TotalAccepted(o.windows) == o.position
  {
    var o := Run(data, parse, visible, 0, 0);
    RunChain(data, parse, visible, 0, 0);
    ChainDelivers(data, o.windows, 0, o.position);
  }

  /** The rows the parser's consumers add for the windows `ws`, window by
      window, each window parsed at its own start as base offset. */
  ghost function ParsedRows(data: seq<uint8>, parse: Parser, ws: seq<Window>): seq<Row>
  {
    if ws == [] then []
    else parse(WindowAt(data, ws[0].start), ws[0].start).rows + ParsedRows(data, parse, ws[1..])
  }

  /** Each window's accepted count is the parser's answer for that window at
      its start, and the rows of a run are the parser's rows in window order. */
  lemma {:induction false} RunParses(data: seq<uint8>, parse: Parser, visible: seq<bool>, pos: nat, k: nat)
    requires ParserContract(data, parse) && pos <= |data|
    ensures var o := Run(data, parse, visible, pos, k);
      && (forall i :: 0 <= i < |o.windows| ==>
            o.windows[i].accepted == parse(WindowAt(data, o.windows[i].start), o.windows[i].start).accepted)
      && o.rows == ParsedRows(data, parse, o.windows)
    decreases |data| - pos
  {
    var o := Run(data, parse, visible, pos, k);
    if pos < |data| {
      var w := WindowAt(data, pos);
      var next := pos + parse(w, pos).accepted;
      if pos + |w| < |data| && Polled(visible, k) {
        var rest := Run(data, parse, visible, next, k + 1);
        RunParses(data, parse, visible, next, k + 1);
        assert var o' := Run(data, parse, visible, next, k + 1);
          && (forall i :: 0 <= i < |o'.windows| ==>
                o'.windows[i].accepted == parse(WindowAt(data, o'.windows[i].start), o'.windows[i].start).accepted)
          && o'.rows == ParsedRows(data, parse, o'.windows);
        assert o.windows[1..] == rest.windows;
        forall i | 0 < i < |o.windows|
          ensures o.windows[i].accepted == parse(WindowAt(data, o.windows[i].start), o.windows[i].start).accepted
        {
          assert o.windows[i] == rest.windows[i - 1];
        }
      }
    }
  }

  /** Every window handed to the parser is a non-empty read of at most 4 MiB
      from the file: the first starts at offset 0 and each later one at the
      `position` the previous one left. */
  lemma {:induction false} WindowsAreReads(data: seq<uint8>, ws: seq<Window>, from: nat, to: nat)
    requires Chain(data, ws, from, to)
    ensures |ws| > 0 ==> ws[0].start == from
    ensures forall i :: 0 <= i < |ws| ==>
      0 < ws[i].length <= WindowSize && ws[i].start + ws[i].length <= |data|
    ensures forall i :: 0 < i < |ws| ==> ws[i].start == ws[i - 1].start + ws[i - 1].accepted
    decreases |ws|
  {
    if ws != [] {
      WindowsAreReads(data, ws[1..], from + ws[0].accepted, to);
      forall i | 0 < i < |ws|
        ensures ws[i].start == ws[i - 1].start + ws[i - 1].accepted
      {
        if i > 1 {
          assert ws[i] == ws[1..][i - 1] && ws[i - 1] == ws[1..][i - 2];
        }
      }
    }
  }

  // ---------------------------------------------------------------------
  // Progress and stopping

  lemma PercentBounds(a: nat, b: nat, size: nat)
    requires a <= b <= size && size > 0
    ensures Percent(a, size) <= Percent(b, size) <= 100
  {
    PercentIsDivision(a, size);
    PercentIsDivision(b, size);
    var x, y := a * 100, b * 100;
    assert x <= y <= size * 100;
    DivMonotone(x, y, size);
    DivMonotone(y, size * 100, size);
    DivUnique(size * 100, size, 100, 0);
  }

  /** The quotient a division leaves with a remainder below the divisor is
      the one `/` computes. */
  lemma DivUnique(x: nat, n: nat, q: nat, r: nat)
    requires n > 0 && r < n && x == n * q + r
    ensures x / n == q
  {
    var q', r' := x / n, x % n;
    assert x == n * q' + r';
    if q' > q {
      MulMonotone(n, q + 1, q');
      assert false;
    }
    if q' < q {
      MulMonotone(n, q' + 1, q);
      assert false;
    }
  }

  lemma {:induction false} QuotientIsDivision(x: nat, n: nat)
    requires n > 0
    ensures Quotient(x, n) == x / n
    decreases x
  {
    if x < n {
      DivUnique(x, n, 0, x);
    } else {
      QuotientIsDivision(x - n, n);
      var q, r := (x - n) / n, (x - n) % n;
      assert x == n * (q + 1) + r;
      DivUnique(x, n, q + 1, r);
    }
  }

  /** The progress value is the integer division the progress bar is set to. */
  lemma PercentIsDivision(position: nat, size: nat)
    requires size > 0
    ensures Percent(position, size) == position * 100 / size
  {
    QuotientIsDivision(100 * position, size);
  }

  lemma DivMonotone(x: nat, y: nat, n: nat)
    requires x <= y && n > 0
    ensures x / n <= y / n
  {
    var qx, qy := x / n, y / n;
    assert x == n * qx + x % n && y == n * qy + y % n;
    if qx > qy {
      MulMonotone(n, qy + 1, qx);
      assert false;
    }
  }

  lemma MulMonotone(n: nat, p: nat, q: nat)
    requires p <= q
    ensures n * p <= n * q
  {
    assert n * q == n * p + n * (q - p);
  }

  /** The progress bar is set once per window that does not reach the end of
      the file, to `position * 100 / fileSize` as it stands after that
      window. */
  lemma {:induction false} RunProgress(data: seq<uint8>, parse: Parser, visible: seq<bool>, pos: nat, k: nat)
    requires ParserContract(data, parse) && pos <= |data|
    ensures var o := Run(data, parse, visible, pos, k);
      && |o.progress| <= |o.windows|
      && (forall i :: 0 <= i < |o.progress| ==>
            o.progress[i] == Percent(o.windows[i].start + o.windows[i].accepted, |data|))
    decreases |data| - pos
  {
    var o := Run(data, parse, visible, pos, k);
    if pos < |data| {
      var w := WindowAt(data, pos);
      var next := pos + parse(w, pos).accepted;
      if pos + |w| < |data| && Polled(visible, k) {
        var rest := Run(data, parse, visible, next, k + 1);
        RunProgress(data, parse, visible, next, k + 1);
        assert o.progress[1..] == rest.progress;
        assert o.windows[1..] == rest.windows;
      }
    }
  }

  /** The progress values never decrease and stay within 0..100; none is
      below the percentage of the position the run started from. */
  lemma {:induction false} RunProgressRises(data: seq<uint8>, parse: Parser, visible: seq<bool>, pos: nat, k: nat)
    requires ParserContract(data, parse) && pos <= |data|
    ensures var o := Run(data, parse, visible, pos, k);
      && (forall i :: 0 <= i < |o.progress| ==> Percent(pos, |data|) <= o.progress[i] <= 100)
      && (forall i, j :: 0 <= i <= j < |o.progress| ==> o.progress[i] <= o.progress[j])
    decreases |data| - pos
  {
    var o := Run(data, parse, visible, pos, k);
    if pos < |data| {
      var w := WindowAt(data, pos);
      var next := pos + parse(w, pos).accepted;
      if pos + |w| < |data| {
        PercentBounds(pos, next, |data|);
        if Polled(visible, k) {
          var rest := Run(data, parse, visible, next, k + 1);
          RunProgressRises(data, parse, visible, next, k + 1);
          assert var o' := Run(data, parse, visible, next, k + 1);
            && (forall i :: 0 <= i < |o'.progress| ==> Percent(next, |data|) <= o'.progress[i] <= 100)
            && (forall i, j :: 0 <= i <= j < |o'.progress| ==> o'.progress[i] <= o'.progress[j]);
          assert o.progress == [Percent(next, |data|)] + rest.progress;
          forall i | 0 < i < |o.progress|
            ensures Percent(next, |data|) <= o.progress[i] <= 100
          {
            assert o.progress[i] == rest.progress[i - 1];
          }
          forall i, j | 0 <= i <= j < |o.progress|
            ensures o.progress[i] <= o.progress[j]
          {
            if 0 < i {
              assert o.progress[i] == rest.progress[i - 1] && o.progress[j] == rest.progress[j - 1];
            }
          }
        }
      }
    }
  }

  /** Why the loop stopped. A run ends at end of file either because there
      was nothing left to read or because its last window reached the end;
      then that window got no progress update and no poll. A run is
      cancelled only by a poll made after a window's seek and progress
      update, so every window of a cancelled run has its progress value. */
  lemma {:induction false} RunStop(data: seq<uint8>, parse: Parser, visible: seq<bool>, pos: nat, k: nat)
    requires ParserContract(data, parse) && pos <= |data|
    ensures var o := Run(data, parse, visible, pos, k);
      && (o.windows == [] <==> pos == |data|)
      && (o.stop == EndOfFile && o.windows != [] ==>
            |o.progress| == |o.windows| - 1
            && o.windows[|o.windows| - 1].start + o.windows[|o.windows| - 1].length == |data|)
      && (o.stop == Cancelled ==>
            |o.progress| == |o.windows| > 0
            && !Polled(visible, k + |o.windows| - 1)
            && o.windows[|o.windows| - 1].start + o.windows[|o.windows| - 1].length < |data|)
    decreases |data| - pos
  {
    var o := Run(data, parse, visible, pos, k);
    if pos < |data| {
      var w := WindowAt(data, pos);
      var next := pos + parse(w, pos).accepted;
      if pos + |w| < |data| && Polled(visible, k) {
        var rest := Run(data, parse, visible, next, k + 1);
        RunStop(data, parse, visible, next, k + 1);
        assert o.windows[1..] == rest.windows;
        assert next < |data|;
      }
    }
  }

  /** Every poll before the last one found the bar visible, and a run that
      reached the end of the file found it visible at every poll. */
  lemma {:induction false} RunPolls(data: seq<uint8>, parse: Parser, visible: seq<bool>, pos: nat, k: nat)
    requires ParserContract(data, parse) && pos <= |data|
    ensures var o := Run(data, parse, visible, pos, k);
      && (forall j :: k <= j < k + |o.progress| - 1 ==> Polled(visible, j))
      && (o.stop == EndOfFile ==> forall j :: k <= j < k + |o.progress| ==> Polled(visible, j))
    decreases |data| - pos
  {
    if pos < |data| {
      var w := WindowAt(data, pos);
      var next := pos + parse(w, pos).accepted;
      if pos + |w| < |data| && Polled(visible, k) {
        RunPolls(data, parse, visible, next, k + 1);
      }
    }
  }

  /** When the loop stops at end of file, the bytes between `position` and
      the end of the file are exactly the unaccepted tail of the last window:
      they are dropped without being handed to the parser again. */
  lemma {:induction false} TailDroppedAtEnd(data: seq<uint8>, parse: Parser, visible: seq<bool>, pos: nat, k: nat)
    requires ParserContract(data, parse) && pos <= |data|
    ensures var o := Run(data, parse, visible, pos, k);
      o.stop == EndOfFile && o.windows != [] ==>
        |data| - o.position == o.windows[|o.windows| - 1].length - o.windows[|o.windows| - 1].accepted
    decreases |data| - pos
  {
    var o := Run(data, parse, visible, pos, k);
    if pos < |data| {
      var w := WindowAt(data, pos);
      var next := pos + parse(w, pos).accepted;
      if pos + |w| < |data| && Polled(visible, k) {
        var rest := Run(data, parse, visible, next, k + 1);
        TailDroppedAtEnd(data, parse, visible, next, k + 1);
        RunStop(data, parse, visible, next, k + 1);
        assert o.windows[1..] == rest.windows;
      }
    }
  }

  /** With a parser that accepts every window whole and a progress bar that
      is never closed, the loop reads the file in ceil(size / 4 MiB) windows
      -- in particular a file whose size is a multiple of 4 MiB gets no final
      empty window -- and `position` ends at the file size. */
  lemma {:induction false} WholeWindowsReadEverything(data: seq<uint8>, parse: Parser, visible: seq<bool>, pos: nat, k: nat)
    requires ParserContract(data, parse) && pos <= |data|
    requires forall b: nat :: b < |data| ==> parse(WindowAt(data, b), b).accepted == |WindowAt(data, b)|
    requires forall j :: k <= j < |visible| ==> visible[j]
    ensures var o := Run(data, parse, visible, pos, k);
      && o.stop == EndOfFile
      && o.position == |data|
      && |o.windows| == (|data| - pos + WindowSize - 1) / WindowSize
    decreases |data| - pos
  {
    if pos < |data| {
      var w := WindowAt(data, pos);
      if pos + |w| < |data| {
        assert Polled(visible, k);
        WholeWindowsReadEverything(data, parse, visible, pos + WindowSize, k + 1);
        assert (|data| - pos + WindowSize - 1) / WindowSize
            == 1 + (|data| - (pos + WindowSize) + WindowSize - 1) / WindowSize;
      }
    }
  }

  /** A 10 MiB stream whose parser accepts whole windows except the last 3
      bytes of the second, which start a record that continues into the
      third window: three windows are read, at offsets 0, 4194304 and
      8388605, and `position` ends at 10485760. */
  lemma StraddlingRecordScenario(data: seq<uint8>)
    requires |data| == 10 * 0x10_0000
    ensures var parse: Parser := (w: seq<uint8>, b: nat) =>
              Step(if b == WindowSize && |w| >= 3 then |w| - 3 else |w|, []);
      ParserContract(data, parse)
      && Run(data, parse, [], 0, 0).windows
         == [Window(0, 4194304, 4194304), Window(4194304, 4194304, 4194301),
             Window(8388605, 2097155, 2097155)]
      && Run(data, parse, [], 0, 0).position == 10485760
  {
    var parse: Parser := (w: seq<uint8>, b: nat) =>
      Step(if b == WindowSize && |w| >= 3 then |w| - 3 else |w|, []);
    assert ParserContract(data, parse);
    var r2 := Run(data, parse, [], 8388605, 2);
    assert r2.windows == [Window(8388605, 2097155, 2097155)] && r2.position == 10485760;
    var r1 := Run(data, parse, [], 4194304, 1);
    assert r1.windows == [Window(4194304, 4194304, 4194301)] + r2.windows;
    var r0 := Run(data, parse, [], 0, 0);
    assert r0.windows == [Window(0, 4194304, 4194304)] + r1.windows;
  }

  // ---------------------------------------------------------------------
  // The back-filled length of the last record

  /** The table after the back-fill: only the length cell of the last row
      changes, to `position` minus the offset its offset cell gives (in
      size_t arithmetic); an empty table is left alone. */
  function BackFilled(rows: seq<Row>, position: nat): (r: seq<Row>)
    ensures |r| == |rows|
    ensures forall i :: 0 <= i < |rows| ==> r[i].offsetText == rows[i].offsetText
    ensures forall i :: 0 <= i < |rows| - 1 ==> r[i] == rows[i]
  {
    if rows == [] then rows
    else
      var last := rows[|rows| - 1];
      rows[..|rows| - 1]
      + [Row(last.offsetText, OffsetCell.LengthCell(position, OffsetCell.LastNalOffset(last.offsetText)))]
  }

  /** When the last row's offset cell reads "<caption>(N)", the back-filled
      length cell reads back as `position - N`: the length of the last record,
      from its start to the last accepted byte. */
  lemma BackFillGivesLastLength(rows: seq<Row>, position: nat, caption: string, n: nat)
    requires rows != [] && rows[|rows| - 1].offsetText == caption + "(" + OffsetCell.Decimal(n) + ")"
    requires '(' !in caption && n <= position < OffsetCell.U64
    ensures OffsetCell.ToULongLong(BackFilled(rows, position)[|rows| - 1].lengthText) == position - n
  {
    OffsetCell.OffsetRecovered(caption, n);
    OffsetCell.LengthCellValue(position, n);
  }

  // ---------------------------------------------------------------------
  // The GUI objects

  /** A QFile open for reading: its contents and the read cursor. */
  class File {
    const data: seq<uint8>
    var cursor: nat

    constructor (content: seq<uint8>)
      ensures data == content && cursor == 0
    {
      data := content;
      cursor := 0;
    }

    function Size(): nat
    {
      |data|
    }

    predicate AtEnd()
      reads this
    {
      cursor >= |data|
    }

    method Read(maxSize: nat) returns (chunk: seq<uint8>)
      modifies this
      ensures chunk == ReadAt(data, old(cursor), maxSize)
      ensures cursor == old(cursor) + |chunk|
    {
      chunk := ReadAt(data, cursor, maxSize);
      cursor := cursor + |chunk|;
    }

    method Seek(pos: nat)
      modifies this
      ensures cursor == pos
    {
      cursor := pos;
    }

    method ReadAll() returns (rest: seq<uint8>)
      modifies this
      ensures rest == (if old(cursor) < |data| then data[old(cursor)..] else [])
      ensures cursor == if old(cursor) < |data| then |data| else old(cursor)
    {
      rest := if cursor < |data| then data[cursor..] else [];
      cursor := cursor + |rest|;
    }
  }

  /** What running the transcoder did: whether waitForFinished returned true,
      whether the exit was normal (no crash), its exit code, and the file it
      wrote, if any. */
  datatype Ffmpeg = Ffmpeg(finished: bool, normalExit: bool, exitCode: int,
                           written: Option<seq<uint8>>)

  /** Names ending in ".265" or ".h265" (case-sensitive) are read as they are. */
  predicate NeedsConversion(fileName: string)
  {
    !EndsWith(fileName, ".265") && !EndsWith(fileName, ".h265")
  }

  /** The temporary file the transcoder writes. */
  function TempName(fileName: string): string
  {
    fileName + "_output.265"
  }

  /** The contents of the temporary file once the transcoder has finished:
      what it wrote, or what was already there, or nothing. */
  function TempContent(disk: map<string, seq<uint8>>, fileName: string, ffmpeg: Ffmpeg): seq<uint8>
  {
    if ffmpeg.written.Some? then ffmpeg.written.value
    else if TempName(fileName) in disk then disk[TempName(fileName)]
    else []
  }

  /** The suffix test is case-sensitive: ".H265" and ".mp4" names are
      transcoded, ".265" and ".h265" names are not. */
  lemma ElementaryNames(stem: string)
    ensures !NeedsConversion(stem + ".265") && !NeedsConversion(stem + ".h265")
    ensures NeedsConversion(stem + ".H265") && NeedsConversion(stem + ".mp4")
  {
    EndsWithAppended(stem, ".265");
    EndsWithAppended(stem, ".h265");
    var upper := stem + ".H265";
    assert upper[|upper| - 4..] == "H265";
    var mp4 := stem + ".mp4";
    assert mp4[|mp4| - 4..] == ".mp4";
  }

  /** The main window's state that ingestion touches: the files on disk, the
      rows of the info table and the bytes shown in the hex viewer. */
  class MainWindow {
    var disk: map<string, seq<uint8>>
    var infoRows: seq<Row>
    var hexData: seq<uint8>

    constructor (files: map<string, seq<uint8>>)
      ensures disk == files && infoRows == [] && hexData == []
    {
      disk := files;
      infoRows := [];
      hexData := [];
    }

    /** MainWindow::process: the window loop over the named file, then the
        back-fill of the last row's length, then the hex viewer gets the
        whole file. A file that cannot be opened changes nothing. */
    method Process(fileName: string, parse: Parser, visible: seq<bool>)
      returns (canRead: bool, position: nat, progress: seq<nat>, stop: Stop)
      requires fileName in disk ==> ParserContract(disk[fileName], parse)
      modifies this
      ensures disk == old(disk)
      ensures canRead <==> fileName in disk
      ensures !canRead ==> infoRows == old(infoRows) && hexData == old(hexData)
      ensures canRead ==>
        var o := Run(disk[fileName], parse, visible, 0, 0);
        && position == o.position && progress == o.progress && stop == o.stop
        && infoRows == BackFilled(old(infoRows) + o.rows, o.position)
        && hexData == disk[fileName]
    {
      position, progress, stop := 0, [], EndOfFile;
      canRead := fileName in disk;
      if !canRead {
        return;
      }
      var file := new File(disk[fileName]);
      position, progress, stop := ReadWindows(file, parse, visible);
      if |infoRows| > 0 {
        var last := infoRows[|infoRows| - 1];
        var offset := OffsetCell.LastNalOffset(last.offsetText);
        infoRows := infoRows[..|infoRows| - 1]
          + [Row(last.offsetText, OffsetCell.LengthCell(position, offset))];
      }
      file.Seek(0);
      hexData := file.ReadAll();
    }

    /** The window loop of MainWindow::process, over an open file whose
        cursor is at 0; the parser's consumers append rows to the table. */
    method ReadWindows(file: File, parse: Parser, visible: seq<bool>)
      returns (position: nat, progress: seq<nat>, stop: Stop)
      requires file.cursor == 0 && ParserContract(file.data, parse)
      modifies this`infoRows, file
      ensures var o := Run(file.data, parse, visible, 0, 0);
        && position == o.position && progress == o.progress && stop == o.stop
        && infoRows == old(infoRows) + o.rows
    {
      ghost var all := Resume(file.data, parse, visible, 0, 0, [], [], infoRows);
      ghost var windows: seq<Window> := [];
      position, progress, stop := 0, [], EndOfFile;
      var k: nat := 0;
      while !file.AtEnd()
        invariant file.cursor == position <= |file.data| && stop == EndOfFile
        invariant all == Resume(file.data, parse, visible, position, k, windows, progress, infoRows)
        decreases |file.data| - position
      {
        ghost var before := position;
        var window := file.Read(WindowSize);
        assert window == WindowAt(file.data, before);
        var step := parse(window, position);
        position := position + step.accepted;
        windows := windows + [Window(before, |window|, step.accepted)];
        infoRows := infoRows + step.rows;
        if file.AtEnd() {
          break;
        }
        file.Seek(position);
        var percent := Percent(position, file.Size());
        progress := progress + [percent];
        if !Polled(visible, k) {
          stop := Cancelled;
          break;
        }
        k := k + 1;
      }
      assert all == Outcome(position, windows, progress, infoRows, stop);
      ResumeIsRun(file.data, parse, visible, 0, 0, [], [], old(infoRows));
      ghost var o := Run(file.data, parse, visible, 0, 0);
      assert [] + o.progress == o.progress;
    }

    /** MainWindow::openFile: an existing, non-empty file name clears the
        info table; a name not ending in ".265" or ".h265" is first
        transcoded into `TempName(fileName)`, which is removed on every path;
        the processed file is the original or the transcoded one. */
    method OpenFile(fileName: string, ffmpeg: Ffmpeg, parse: Parser, visible: seq<bool>)
      returns (processed: Option<string>)
      requires fileName in disk && !NeedsConversion(fileName) ==>
        ParserContract(disk[fileName], parse)
      requires fileName in disk && NeedsConversion(fileName) ==>
        ParserContract(TempContent(disk, fileName, ffmpeg), parse)
      modifies this
      ensures fileName == [] || fileName !in old(disk) ==>
        processed == None && disk == old(disk) && infoRows == old(infoRows) && hexData == old(hexData)
      ensures fileName != [] && fileName in old(disk) && !NeedsConversion(fileName) ==>
        processed == Some(fileName) && disk == old(disk)
      ensures fileName != [] && fileName in old(disk) && NeedsConversion(fileName) ==>
        && disk == old(disk) - {TempName(fileName)}
        && (processed.Some? <==>
              ffmpeg.finished && ffmpeg.normalExit && |TempContent(old(disk), fileName, ffmpeg)| > 0)
        && (processed.Some? ==> processed == Some(TempName(fileName)))
        && (processed.None? ==> infoRows == [] && hexData == old(hexData))
      ensures processed.Some? ==>
        var content := if processed.value == fileName then old(disk)[fileName]
                       else TempContent(old(disk), fileName, ffmpeg);
        var o := Run(content, parse, visible, 0, 0);
        infoRows == BackFilled(o.rows, o.position) && hexData == content
    {
      processed := None;
      if fileName == [] || fileName !in disk {
        return;
      }
      infoRows := [];
      var input := fileName;
      var tmp := "";
      if NeedsConversion(fileName) {
        tmp := TempName(fileName);
        var converted := Transcode(fileName, ffmpeg);
        if !converted {
          return;
        }
        assert |tmp| > |fileName| && disk[tmp] == TempContent(old(disk), fileName, ffmpeg);
        input := tmp;
      }
      var canRead, position, progress, stop := Process(input, parse, visible);
      processed := Some(input);
      if tmp != "" {
        disk := disk - {tmp};
      }
    }

    /** The transcoding branch of MainWindow::openFile: ffmpeg writes
        `TempName(fileName)`; when waitForFinished fails, the exit is not
        normal or the temporary file is empty, the file is removed and the
        conversion has failed. */
    method Transcode(fileName: string, ffmpeg: Ffmpeg) returns (converted: bool)
      modifies this`disk
      ensures converted <==>
        ffmpeg.finished && ffmpeg.normalExit && |TempContent(old(disk), fileName, ffmpeg)| > 0
      ensures converted ==> disk == old(disk)[TempName(fileName) := TempContent(old(disk), fileName, ffmpeg)]
      ensures !converted ==> disk == old(disk) - {TempName(fileName)}
    {
      var tmp := TempName(fileName);
      if !ffmpeg.finished {
        disk := disk - {tmp};
        return false;
      }
      if ffmpeg.written.Some? {
        disk := disk[tmp := ffmpeg.written.value];
      }
      if !ffmpeg.normalExit {
        disk := disk - {tmp};
        return false;
      }
      var size := if tmp in disk then |disk[tmp]| else 0;
      if size == 0 {
        disk := disk - {tmp};
        return false;
      }
      return true;
    }
  }
}
