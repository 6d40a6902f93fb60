/**
 * The print-job controller of BluetoothPrinterManager.swift as a pure state
 * machine. A `Job` holds the row queue (`dataQueue`), the two flags
 * (`isPaused`, `isPrinting`) and the callbacks the source has handed to the
 * main dispatch queue but that have not run yet: `pendingTicks` scheduled
 * `sendNextChunk` calls (one per row sent) and `pendingClears` deferred
 * `isPrinting = false` assignments (one per teardown). Each operation returns
 * the new job and the commands it sent, in order.
 */
module PrintJob {
  import opened Protocol
  import opened Sequences

  type Row = seq<Byte>

  const CmdGetState: Byte := 0xA3
  const CmdStartLattice: Byte := 0xA6
  const CmdSetDpi: Byte := 0xA4
  const CmdSetSpeed: Byte := 0xBD
  const CmdSetEnergy: Byte := 0xAF
  const CmdApplyEnergy: Byte := 0xBE
  const CmdFeedPaper: Byte := 0xA1
  const CmdDrawBitmap: Byte := 0xA2

  const StartLatticeMagic: seq<Byte> := [0xaa, 0x55, 0x17, 0x38, 0x44, 0x5f, 0x5f, 0x5f, 0x44, 0x38, 0x2c]
  const EndLatticeMagic: seq<Byte> := [0xaa, 0x55, 0x17, 0x00, 0x00, 0x00, 0x00, 0x00, 0x00, 0x00, 0x17]

  /** The seven commands a print request sends before any row. */
  function SetupCommands(): (cs: seq<Command>)
    ensures |cs| == 7 && Encodable(cs)
  {
    [ Command(CmdGetState, []),
                Command(CmdGetState, [0x00, 0x01, 0x00, 0x00, 0x00]),
                Command(CmdSetDpi, [50]),
                Command(CmdSetSpeed, [32]),
                Command(CmdSetEnergy, [0x60, 0x00]),
                Command(CmdApplyEnergy, [0x01]),
                Command(CmdStartLattice, StartLatticeMagic) ]
  }

  /** The three commands `finishPrintJob` sends. */
  function TeardownCommands(): (cs: seq<Command>)
    ensures |cs| == 3 && Encodable(cs)
  {
    [ Command(CmdStartLattice, EndLatticeMagic),
                Command(CmdSetSpeed, [8]),
                Command(CmdFeedPaper, [0x00, 0x80]) ]
  }

  /** The DRAW_BITMAP command for each row, in row order. */
  function BitmapCommands(rows: seq<Row>): (cs: seq<Command>)
    ensures |cs| == |rows|
    ensures forall i :: 0 <= i < |rows| ==> cs[i] == Command(CmdDrawBitmap, rows[i])
  {
    if rows == [] then [] else [Command(CmdDrawBitmap, rows[0])] + BitmapCommands(rows[1..])
  }

  /** The payloads of the DRAW_BITMAP commands among `cs`, in order: the rows
      that reached the printer. */
  function Draws(cs: seq<Command>): seq<Row> {
    if cs == [] then [] else (if cs[0].code == CmdDrawBitmap then [cs[0].payload] else []) + Draws(cs[1..])
  }

  lemma {:induction false} DrawsAppend(a: seq<Command>, b: seq<Command>)
    ensures Draws(a + b) == Draws(a) + Draws(b)
  {
    if a == [] {
      assert a + b == b;
    } else {
      assert (a + b)[0] == a[0] && (a + b)[1..] == a[1..] + b;
      DrawsAppend(a[1..], b);
    }
  }

  lemma {:induction false} NoDrawsWithoutBitmap(cs: seq<Command>)
    requires forall i :: 0 <= i < |cs| ==> cs[i].code != CmdDrawBitmap
    ensures Draws(cs) == []
  {
    if cs != [] {
      NoDrawsWithoutBitmap(cs[1..]);
    }
  }

  /** Neither the setup nor the teardown sends a row. */
  lemma ControlCommandsDrawNothing()
    ensures Draws(SetupCommands()) == [] && Draws(TeardownCommands()) == []
  {
    NoDrawsWithoutBitmap(SetupCommands());
    NoDrawsWithoutBitmap(TeardownCommands());
  }

  /** The rows sent as bitmaps are exactly the rows given, in order. */
  lemma {:induction false} DrawsOfBitmapCommands(rows: seq<Row>)
    ensures Draws(BitmapCommands(rows)) == rows
  {
    if rows != [] {
      assert BitmapCommands(rows)[1..] == BitmapCommands(rows[1..]);
      DrawsOfBitmapCommands(rows[1..]);
    }
  }

  /** Every row fits one frame. */
  predicate RowsFit(rows: seq<Row>) {
    forall i :: 0 <= i < |rows| ==> |rows[i]| <= 255
  }

  datatype Job = Job(queue: seq<Row>, paused: bool, printing: bool, pendingTicks: nat, pendingClears: nat)

  datatype Effect = Effect(job: Job, sent: seq<Command>)

  /** `finishPrintJob`: the teardown commands, and `isPrinting = false` handed
      to the main queue. */
  function FinishPrintJob(j: Job): (e: Effect)
    ensures Encodable(e.sent)
  {
    Effect(j.(pendingClears := j.pendingClears + 1), TeardownCommands())
  }

  /** `sendNextChunk`: when not paused and rows remain, send the first row and
      schedule the next call; when the queue is empty while printing, tear the
      job down; otherwise nothing. */
  function SendNextChunk(j: Job): (e: Effect)
    ensures RowsFit(j.queue) ==> RowsFit(e.job.queue) && Encodable(e.sent)
  {
    if j.paused || |j.queue| == 0 then
      if |j.queue| == 0 && j.printing then FinishPrintJob(j) else Effect(j, [])
    else
      Effect(j.(queue := j.queue[1..], pendingTicks := j.pendingTicks + 1), [Command(CmdDrawBitmap, j.queue[0])])
  }

  /** `printImageLines`: with no TX characteristic nothing happens; otherwise
      the job starts printing, the queue is replaced by `lines`, the seven setup
      commands go out, the pause flag is cleared and the first chunk is sent. */
  function PrintImageLines(j: Job, txBound: bool, lines: seq<Row>): (e: Effect)
    ensures RowsFit(j.queue) && RowsFit(lines) ==> RowsFit(e.job.queue) && Encodable(e.sent)
  {
    if !txBound then
      Effect(j, [])
    else
      var next := SendNextChunk(j.(printing := true, queue := lines, paused := false));
      assert RowsFit(lines) ==> Encodable(SetupCommands() + next.sent) by {
        if RowsFit(lines) { FramesAppend(SetupCommands(), next.sent); }
      }
      Effect(next.job, SetupCommands() + next.sent)
  }

  /** One scheduled `sendNextChunk` callback runs, if any is pending. */
  function Tick(j: Job): (e: Effect)
    ensures RowsFit(j.queue) ==> RowsFit(e.job.queue) && Encodable(e.sent)
  {
    if j.pendingTicks == 0 then Effect(j, []) else SendNextChunk(j.(pendingTicks := j.pendingTicks - 1))
  }

  /** An inbound notification: a Pause frame sets the flag, a Resume frame
      clears it and calls `sendNextChunk` at once; anything else is dropped. */
  function Notify(j: Job, bytes: seq<Byte>): (e: Effect)
    ensures RowsFit(j.queue) ==> RowsFit(e.job.queue) && Encodable(e.sent)
  {
    match ClassifyNotification(bytes)
    case Pause => Effect(j.(paused := true), [])
    case Resume => SendNextChunk(j.(paused := false))
    case Ignored => Effect(j, [])
  }

  /** One deferred `isPrinting = false` runs, if any is pending. */
  function RunPendingClear(j: Job): (e: Effect)
    ensures RowsFit(j.queue) ==> RowsFit(e.job.queue) && Encodable(e.sent)
  {
    if j.pendingClears == 0 then Effect(j, [])
    else Effect(j.(printing := false, pendingClears := j.pendingClears - 1), [])
  }

  // ---------------------------------------------------------------------------
  // What each operation does
  // ---------------------------------------------------------------------------

  /** `sendNextChunk` removes exactly the first row and sends it as a bitmap
      when not paused; when paused with rows left it does nothing; on an empty
      queue it tears the job down if and only if the job is printing. */
  lemma SendNextChunkBehaviour(j: Job)
    ensures var e := SendNextChunk(j);
      && Draws(e.sent) + e.job.queue == j.queue
      && e.job.paused == j.paused && e.job.printing == j.printing
      && (j.paused && j.queue != [] ==> e == Effect(j, []))
      && (!j.paused && j.queue != [] ==>
            e.sent == [Command(CmdDrawBitmap, j.queue[0])] && e.job.queue == j.queue[1..]
            && e.job.pendingTicks == j.pendingTicks + 1 && e.job.pendingClears == j.pendingClears)
      && (j.queue == [] && j.printing ==>
            e.sent == TeardownCommands() && e.job == j.(pendingClears := j.pendingClears + 1))
      && (j.queue == [] && !j.printing ==> e == Effect(j, []))
  {
    var e := SendNextChunk(j);
    if j.queue == [] {
      if j.printing {
        assert e == Effect(j.(pendingClears := j.pendingClears + 1), TeardownCommands());
        ControlCommandsDrawNothing();
      } else {
        assert e == Effect(j, []);
      }
    } else if j.paused {
      assert e == Effect(j, []);
    } else {
      var sent := [Command(CmdDrawBitmap, j.queue[0])];
      assert e == Effect(j.(queue := j.queue[1..], pendingTicks := j.pendingTicks + 1), sent);
      assert Draws(sent) == [j.queue[0]] by { assert sent[1..] == []; }
      assert [j.queue[0]] + j.queue[1..] == j.queue;
    }
  }

  /** `printImageLines` without a TX characteristic changes nothing and sends
      nothing; with one it sends the seven setup commands first, leaves the job
      printing and unpaused, and replaces (does not extend) the queue: the rows
      it sends followed by the rows it queues are exactly `lines`. */
  lemma PrintImageLinesBehaviour(j: Job, txBound: bool, lines: seq<Row>)
    ensures var e := PrintImageLines(j, txBound, lines);
      && (!txBound ==> e == Effect(j, []))
      && (txBound ==> |e.sent| >= 7 && e.sent[..7] == SetupCommands()
                      && e.job.printing && !e.job.paused
                      && Draws(e.sent) + e.job.queue == lines)
  {
    if txBound {
      var started := j.(printing := true, queue := lines, paused := false);
      var next := SendNextChunk(started);
      SendNextChunkBehaviour(started);
      DrawsAppend(SetupCommands(), next.sent);
      ControlCommandsDrawNothing();
      assert Draws(SetupCommands() + next.sent) == [] + Draws(next.sent) == Draws(next.sent);
      assert (SetupCommands() + next.sent)[..7] == SetupCommands();
    }
  }

  /** With a TX characteristic, `printImageLines` is the setup commands
      followed by one `sendNextChunk` on the restarted job. */
  lemma PrintImageLinesLinked(j: Job, lines: seq<Row>)
    ensures var next := SendNextChunk(j.(printing := true, queue := lines, paused := false));
      PrintImageLines(j, true, lines) == Effect(next.job, SetupCommands() + next.sent)
  {
  }

  /** A pacing tick with nothing scheduled does nothing; otherwise it is one
      `sendNextChunk`, so a paused job with rows left keeps them and sends nothing. */
  lemma TickBehaviour(j: Job)
    ensures var e := Tick(j);
      && Draws(e.sent) + e.job.queue == j.queue
      && (j.pendingTicks == 0 ==> e == Effect(j, []))
      && (j.paused && j.queue != [] ==> e.sent == [] && e.job.queue == j.queue && e.job.paused)
  {
    if j.pendingTicks > 0 {
      SendNextChunkBehaviour(j.(pendingTicks := j.pendingTicks - 1));
    }
  }

  /** A Pause frame only sets the flag; anything that is neither Pause nor
      Resume changes nothing at all; a Resume frame clears the flag. */
  lemma NotifyBehaviour(j: Job, bytes: seq<Byte>)
    ensures var e := Notify(j, bytes);
      && Draws(e.sent) + e.job.queue == j.queue
      && (ClassifyNotification(bytes) == Ignored ==> e == Effect(j, []))
      && (ClassifyNotification(bytes) == Pause ==> e == Effect(j.(paused := true), []))
      && (ClassifyNotification(bytes) == Resume ==> !e.job.paused)
  {
    SendNextChunkBehaviour(j.(paused := false));
  }

  /** A deferred clear sends nothing, keeps the queue and the pause flag, and
      clears the printing flag when one was pending. */
  lemma RunPendingClearBehaviour(j: Job)
    ensures var e := RunPendingClear(j);
      && e.sent == [] && e.job.queue == j.queue && e.job.paused == j.paused
      && (j.pendingClears > 0 ==> !e.job.printing)
      && (j.pendingClears == 0 ==> e == Effect(j, []))
  {
  }

  /** What can happen to a job once it has been submitted. */
  datatype Event = TimerFired | Notified(bytes: seq<Byte>) | MainQueueRan

  function Step(j: Job, ev: Event): (e: Effect)
    ensures RowsFit(j.queue) ==> RowsFit(e.job.queue) && Encodable(e.sent)
  {
    match ev
    case TimerFired => Tick(j)
    case Notified(bytes) => Notify(j, bytes)
    case MainQueueRan => RunPendingClear(j)
  }

  lemma StepConservesRows(j: Job, ev: Event)
    ensures Draws(Step(j, ev).sent) + Step(j, ev).job.queue == j.queue
  {
    match ev
    case TimerFired => TickBehaviour(j);
    case Notified(bytes) => NotifyBehaviour(j, bytes);
    case MainQueueRan => RunPendingClearBehaviour(j);
  }

  /** The events applied in order; the commands sent are concatenated. */
  function Run(j: Job, evs: seq<Event>): Effect
    decreases |evs|
  {
    if evs == [] then Effect(j, [])
    else
      var first := Step(j, evs[0]);
      var rest := Run(first.job, evs[1..]);
      Effect(rest.job, first.sent + rest.sent)
  }

  /** Whatever the interleaving of timer ticks, notifications and main-queue
      callbacks, the rows sent followed by the rows still queued are the queue
      the job started with: no row is skipped, repeated or reordered. */
  lemma {:induction false} RunConservesRows(j: Job, evs: seq<Event>)
    ensures Draws(Run(j, evs).sent) + Run(j, evs).job.queue == j.queue
    decreases |evs|
  {
    if evs != [] {
      var first := Step(j, evs[0]);
      StepConservesRows(j, evs[0]);
      RunConservesRows(first.job, evs[1..]);
      DrawsAppend(first.sent, Run(first.job, evs[1..]).sent);
    }
  }

  /** Whatever the events, every command sent fits a frame when every row does. */
  lemma {:induction false} RunEncodable(j: Job, evs: seq<Event>)
    requires RowsFit(j.queue)
    ensures Encodable(Run(j, evs).sent)
    decreases |evs|
  {
    if evs != [] {
      var first := Step(j, evs[0]);
      RunEncodable(first.job, evs[1..]);
    }
  }

  /** Not a Resume frame. */
  predicate NoResume(evs: seq<Event>) {
    forall i :: 0 <= i < |evs| ==> !(evs[i].Notified? && ClassifyNotification(evs[i].bytes) == Resume)
  }

  /** While paused and until a Resume frame arrives, no row is sent and the
      queue is kept as it is. */
  lemma {:induction false} PausedJobSendsNoRows(j: Job, evs: seq<Event>)
    requires j.paused && NoResume(evs)
    ensures Draws(Run(j, evs).sent) == [] && Run(j, evs).job.queue == j.queue
    ensures Run(j, evs).job.paused
    decreases |evs|
  {
    if evs != [] {
      var first := Step(j, evs[0]);
      assert first.job.paused && first.job.queue == j.queue && Draws(first.sent) == [] by {
        match evs[0]
        case TimerFired => TickBehaviour(j);
        case Notified(bytes) =>
          assert !(evs[0].Notified? && ClassifyNotification(evs[0].bytes) == Resume);
          NotifyBehaviour(j, bytes);
        case MainQueueRan => RunPendingClearBehaviour(j);
      }
      PausedJobSendsNoRows(first.job, evs[1..]);
      DrawsAppend(first.sent, Run(first.job, evs[1..]).sent);
    }
  }

  /** A Resume frame on a paused job with rows left sends exactly the next row. */
  lemma ResumeSendsNextRow(j: Job, bytes: seq<Byte>)
    requires j.paused && j.queue != [] && ClassifyNotification(bytes) == Resume
    ensures Notify(j, bytes).sent == [Command(CmdDrawBitmap, j.queue[0])]
    ensures Notify(j, bytes).job.queue == j.queue[1..] && !Notify(j, bytes).job.paused
  {
    SendNextChunkBehaviour(j.(paused := false));
  }

  /** `n` timer callbacks in a row. */
  function Timers(n: nat): (evs: seq<Event>)
    ensures |evs| == n && forall i :: 0 <= i < n ==> evs[i] == TimerFired
  {
    seq(n, _ => TimerFired)
  }

  /** With one callback scheduled and no flow control, the timer drains the
      queue in order and then tears the job down. */
  lemma {:induction false} DrainWithoutPause(j: Job)
    requires !j.paused && j.printing && j.pendingTicks == 1
    ensures Run(j, Timers(|j.queue| + 1)).sent == BitmapCommands(j.queue) + TeardownCommands()
    ensures Run(j, Timers(|j.queue| + 1)).job == j.(queue := [], pendingTicks := 0, pendingClears := j.pendingClears + 1)
    decreases |j.queue|
  {
    var evs := Timers(|j.queue| + 1);
    var j0 := j.(pendingTicks := 0);
    var first := Step(j, TimerFired);
    assert first == SendNextChunk(j0);
    var rest := Run(first.job, evs[1..]);
    assert Run(j, evs) == Effect(rest.job, first.sent + rest.sent);
    if j.queue == [] {
      assert first == Effect(j0.(pendingClears := j.pendingClears + 1), TeardownCommands());
      assert evs[1..] == [];
      assert BitmapCommands(j.queue) == [];
    } else {
      assert first == Effect(j0.(queue := j.queue[1..], pendingTicks := 1), [Command(CmdDrawBitmap, j.queue[0])]);
      assert evs[1..] == Timers(|j.queue[1..]| + 1);
      DrainWithoutPause(first.job);
      assert BitmapCommands(j.queue) == [Command(CmdDrawBitmap, j.queue[0])] + BitmapCommands(j.queue[1..]);
    }
  }

  /** What a print request sends by itself: setup and the first row, or setup
      and teardown when there are no rows. */
  lemma PrintImageLinesStart(j: Job, lines: seq<Row>)
    ensures lines == [] ==>
      PrintImageLines(j, true, lines) ==
      Effect(j.(printing := true, paused := false, queue := [], pendingClears := j.pendingClears + 1),
             SetupCommands() + TeardownCommands())
    ensures lines != [] ==>
      PrintImageLines(j, true, lines) ==
      Effect(j.(printing := true, paused := false, queue := lines[1..], pendingTicks := j.pendingTicks + 1),
             SetupCommands() + [Command(CmdDrawBitmap, lines[0])])
  {
    var started := j.(printing := true, queue := lines, paused := false);
    var next := SendNextChunk(started);
    assert PrintImageLines(j, true, lines) == Effect(next.job, SetupCommands() + next.sent);
    if lines == [] {
      assert next == FinishPrintJob(started);
    } else {
      assert next == Effect(started.(queue := lines[1..], pendingTicks := j.pendingTicks + 1),
                            [Command(CmdDrawBitmap, lines[0])]);
    }
  }

  lemma EmptyMiddle<T>(x: seq<T>, y: seq<T>, a: seq<T>, b: seq<T>, c: seq<T>)
    requires x == a + c && y == [] && b == []
    ensures x + y == a + b + c
  {
  }

  /** A job of N rows with no flow-control frames: the seven setup commands,
      the N rows as bitmaps in order, then the three teardown commands; an
      empty job goes from setup straight to teardown. */
  lemma NoPauseJob(j: Job, lines: seq<Row>)
    requires j.pendingTicks == 0
    ensures var p := PrintImageLines(j, true, lines);
            var d := Run(p.job, Timers(|lines|));
            p.sent + d.sent == SetupCommands() + BitmapCommands(lines) + TeardownCommands()
  {
    var p := PrintImageLines(j, true, lines);
    var d := Run(p.job, Timers(|lines|));
    NoPauseJobSteps(j, lines);
    var setup, teardown := SetupCommands(), TeardownCommands();
    if lines == [] {
      EmptyMiddle(p.sent, d.sent, setup, BitmapCommands(lines), teardown);
    } else {
      var first := [Command(CmdDrawBitmap, lines[0])];
      assert BitmapCommands(lines) == first + BitmapCommands(lines[1..]);
      Regroup(setup, first, BitmapCommands(lines[1..]), teardown);
    }
  }

  /** That job sends 10 + N commands in all. */
  lemma NoPauseJobCount(j: Job, lines: seq<Row>)
    requires j.pendingTicks == 0
    ensures var p := PrintImageLines(j, true, lines);
            |p.sent + Run(p.job, Timers(|lines|)).sent| == 10 + |lines|
  {
    NoPauseJob(j, lines);
  }

  /** After that job the queue is empty, nothing is scheduled, and the one
      deferred `isPrinting = false` is still pending. */
  lemma NoPauseJobEndsIdle(j: Job, lines: seq<Row>)
    requires j.pendingTicks == 0
    ensures Run(PrintImageLines(j, true, lines).job, Timers(|lines|)).job
            == Job([], false, true, 0, j.pendingClears + 1)
  {
    NoPauseJobSteps(j, lines);
  }

  /** The two phases of a job without flow control, as they are reached. */
  lemma NoPauseJobSteps(j: Job, lines: seq<Row>)
    requires j.pendingTicks == 0
    ensures var p := PrintImageLines(j, true, lines);
            var d := Run(p.job, Timers(|lines|));
            && (lines == [] ==> p.sent == SetupCommands() + TeardownCommands() && d == Effect(p.job, []))
            && (lines != [] ==> p.sent == SetupCommands() + [Command(CmdDrawBitmap, lines[0])]
                                && d.sent == BitmapCommands(lines[1..]) + TeardownCommands())
            && d.job == Job([], false, true, 0, j.pendingClears + 1)
  {
    var p := PrintImageLines(j, true, lines);
    PrintImageLinesStart(j, lines);
    if lines == [] {
      assert Timers(0) == [];
    } else {
      DrainWithoutPause(p.job);
      assert |lines[1..]| + 1 == |lines|;
    }
  }
}
