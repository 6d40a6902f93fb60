/**
 * The print pipeline of BluetoothPrinterManager as a class. The fields are the
 * source's `dataQueue`, `isPaused` and `isPrinting`; whether a peripheral and
 * its TX characteristic are bound stands for the CoreBluetooth objects; the
 * ghost `sent` records every command whose frame was handed to `writeValue`,
 * oldest first (the bytes are `Frames(sent)`, and `BuildPacket` is proved to
 * build exactly those bytes). Callbacks the source schedules on the main
 * dispatch queue are counted (`pendingTicks`, `pendingClears`) and run by
 * `Tick` and `RunPendingClear`. Each method is proved to do what the matching
 * function of PrintJob says.
 */
module Printer {
  import opened Protocol
  import PrintJob

  /** What goes out for `cs`: all of it, or nothing when the peripheral or its
      TX characteristic is missing (the optional chaining in `sendCommand`). */
  function Wire(linked: bool, cs: seq<Command>): (out: seq<Command>)
    ensures linked ==> out == cs
    ensures !linked ==> out == []
  {
    if linked then cs else []
  }

  /** The frame-building half of `sendCommand`: the packet is assembled by
      successive appends and the checksum by the bitwise loop. */
  method BuildPacket(cmd: Byte, payload: seq<Byte>) returns (packet: seq<Byte>)
    requires |payload| <= 255
    ensures packet == EncodePacket(cmd, payload)
  {
    packet := [];
    packet := packet + [SyncHeader0, SyncHeader1];
    packet := packet + [cmd];
    packet := packet + [0x00];
    packet := packet + [|payload| as Byte];
    packet := packet + [0x00];
    packet := packet + payload;
    var crc := CalculateCrc8(payload);
    packet := packet + [crc];
    packet := packet + [Terminator];
  }

  /** Sending one more command extends what went out by that command. */
  lemma SentOneMore(linked: bool, start: seq<Command>, done: seq<Command>, c: Command,
                    before: seq<Command>, after: seq<Command>)
    requires before == start + Wire(linked, done) && after == before + Wire(linked, [c])
    ensures after == start + Wire(linked, done + [c])
  {
  }

  /** What goes out for `a + b` is what goes out for `a` and then for `b`. */
  lemma WireAppend(linked: bool, a: seq<Command>, b: seq<Command>)
    ensures Wire(linked, a + b) == Wire(linked, a) + Wire(linked, b)
  {
  }

  class BluetoothPrinterManager {
    var peripheralBound: bool
    var txBound: bool
    var isPrinting: bool
    var isPaused: bool
    var dataQueue: seq<PrintJob.Row>
    var pendingTicks: nat
    var pendingClears: nat
    /** Every command whose frame was handed to `writeValue`, oldest first;
        the bytes written are `Frames(sent)`. */
    ghost var sent: seq<Command>

    ghost predicate Valid()
      reads this
    {
      PrintJob.RowsFit(dataQueue) && Encodable(sent)
    }

    /** The job as the pure state machine sees it. */
    ghost function State(): PrintJob.Job
      reads this
    {
      PrintJob.Job(dataQueue, isPaused, isPrinting, pendingTicks, pendingClears)
    }

    constructor (peripheral: bool, tx: bool)
      ensures Valid() && State() == PrintJob.Job([], false, false, 0, 0)
      ensures peripheralBound == peripheral && txBound == tx && sent == []
    {
      peripheralBound, txBound := peripheral, tx;
      isPrinting, isPaused := false, false;
      dataQueue := [];
      pendingTicks, pendingClears := 0, 0;
      sent := [];
    }

    /** The disconnect delegate drops the characteristics; the job is left as it is. */
    method DidDisconnect()
      modifies this
      ensures !txBound && peripheralBound == old(peripheralBound)
      ensures State() == old(State()) && sent == old(sent)
    {
      txBound := false;
    }

    /** `sendCommand`: nothing happens unless the peripheral and its TX
        characteristic are present; otherwise the frame is built and written. */
    method SendCommand(cmd: Byte, payload: seq<Byte>)
      requires |payload| <= 255 && Encodable(sent)
      modifies this`sent
      ensures Encodable(sent)
      ensures sent == old(sent) + Wire(peripheralBound && txBound, [Command(cmd, payload)])
    {
      if !peripheralBound || !txBound {
        return;
      }
      var packet := BuildPacket(cmd, payload);
      sent := sent + [Command(cmd, payload)];
      // The packet written is the newest frame of the log.
      FramesAt(sent, |sent| - 1);
      assert Frames(sent)[|sent| - 1] == packet;
    }

    /** `printImageLines`. */
    method PrintImageLines(lines: seq<PrintJob.Row>)
      requires Valid() && PrintJob.RowsFit(lines)
      modifies this
      ensures Valid() && peripheralBound == old(peripheralBound) && txBound == old(txBound)
      ensures var e := PrintJob.PrintImageLines(old(State()), old(txBound), lines);
              State() == e.job && sent == old(sent) + Wire(peripheralBound && txBound, e.sent)
    {
      if !txBound {
        return;
      }
      isPrinting := true;
      dataQueue := lines;
      SendSetup();
      isPaused := false;
      ghost var started := State();
      ghost var mid := sent;
      SendNextChunk();
      ghost var next := PrintJob.SendNextChunk(started);
      PrintJob.PrintImageLinesLinked(old(State()), lines);
      WireAppend(peripheralBound && txBound, PrintJob.SetupCommands(), next.sent);
    }

    /** The seven setup writes at the head of `printImageLines`. */
    method SendSetup()
      requires Encodable(sent)
      modifies this`sent
      ensures Encodable(sent)
      ensures sent == old(sent) + Wire(peripheralBound && txBound, PrintJob.SetupCommands())
    {
      ghost var linked := peripheralBound && txBound;
      ghost var done: seq<Command> := [];
      ghost var before: seq<Command>;
      before := sent;
      SendCommand(PrintJob.CmdGetState, []);
      SentOneMore(linked, old(sent), done, Command(PrintJob.CmdGetState, []), before, sent);
      done := done + [Command(PrintJob.CmdGetState, [])];
      before := sent;
      SendCommand(PrintJob.CmdGetState, [0x00, 0x01, 0x00, 0x00, 0x00]);
      SentOneMore(linked, old(sent), done, Command(PrintJob.CmdGetState, [0x00, 0x01, 0x00, 0x00, 0x00]), before, sent);
      done := done + [Command(PrintJob.CmdGetState, [0x00, 0x01, 0x00, 0x00, 0x00])];
      before := sent;
      SendCommand(PrintJob.CmdSetDpi, [50]);
      SentOneMore(linked, old(sent), done, Command(PrintJob.CmdSetDpi, [50]), before, sent);
      done := done + [Command(PrintJob.CmdSetDpi, [50])];
      before := sent;
      SendCommand(PrintJob.CmdSetSpeed, [32]);
      SentOneMore(linked, old(sent), done, Command(PrintJob.CmdSetSpeed, [32]), before, sent);
      done := done + [Command(PrintJob.CmdSetSpeed, [32])];
      before := sent;
      SendCommand(PrintJob.CmdSetEnergy, [0x60, 0x00]);
      SentOneMore(linked, old(sent), done, Command(PrintJob.CmdSetEnergy, [0x60, 0x00]), before, sent);
      done := done + [Command(PrintJob.CmdSetEnergy, [0x60, 0x00])];
      before := sent;
      SendCommand(PrintJob.CmdApplyEnergy, [0x01]);
      SentOneMore(linked, old(sent), done, Command(PrintJob.CmdApplyEnergy, [0x01]), before, sent);
      done := done + [Command(PrintJob.CmdApplyEnergy, [0x01])];
      before := sent;
      SendCommand(PrintJob.CmdStartLattice, PrintJob.StartLatticeMagic);
      SentOneMore(linked, old(sent), done, Command(PrintJob.CmdStartLattice, PrintJob.StartLatticeMagic), before, sent);
      done := done + [Command(PrintJob.CmdStartLattice, PrintJob.StartLatticeMagic)];
      assert done == PrintJob.SetupCommands();
    }

    /** `sendNextChunk`; the `asyncAfter` that re-runs it becomes one more
        pending tick. */
    method SendNextChunk()
      requires Valid()
      modifies this
      ensures Valid() && peripheralBound == old(peripheralBound) && txBound == old(txBound)
      ensures var e := PrintJob.SendNextChunk(old(State()));
              State() == e.job && sent == old(sent) + Wire(peripheralBound && txBound, e.sent)
    {
      if isPaused || |dataQueue| == 0 {
        if |dataQueue| == 0 && isPrinting {
          FinishPrintJob();
        }
        return;
      }
      var chunk := dataQueue[0];
      dataQueue := dataQueue[1..];
      SendCommand(PrintJob.CmdDrawBitmap, chunk);
      pendingTicks := pendingTicks + 1;
    }

    /** `finishPrintJob`; the `async` that clears `isPrinting` becomes one more
        pending clear. */
    method FinishPrintJob()
      requires Valid()
      modifies this
      ensures Valid() && peripheralBound == old(peripheralBound) && txBound == old(txBound)
      ensures var e := PrintJob.FinishPrintJob(old(State()));
              State() == e.job && sent == old(sent) + Wire(peripheralBound && txBound, e.sent)
    {
      ghost var linked := peripheralBound && txBound;
      ghost var done: seq<Command> := [];
      ghost var before: seq<Command>;
      before := sent;
      SendCommand(PrintJob.CmdStartLattice, PrintJob.EndLatticeMagic);
      SentOneMore(linked, old(sent), done, Command(PrintJob.CmdStartLattice, PrintJob.EndLatticeMagic), before, sent);
      done := done + [Command(PrintJob.CmdStartLattice, PrintJob.EndLatticeMagic)];
      before := sent;
      SendCommand(PrintJob.CmdSetSpeed, [8]);
      SentOneMore(linked, old(sent), done, Command(PrintJob.CmdSetSpeed, [8]), before, sent);
      done := done + [Command(PrintJob.CmdSetSpeed, [8])];
      before := sent;
      SendCommand(PrintJob.CmdFeedPaper, [0x00, 0x80]);
      SentOneMore(linked, old(sent), done, Command(PrintJob.CmdFeedPaper, [0x00, 0x80]), before, sent);
      done := done + [Command(PrintJob.CmdFeedPaper, [0x00, 0x80])];
      assert done == PrintJob.TeardownCommands();
      pendingClears := pendingClears + 1;
    }

    /** The pacing timer fires: one scheduled `sendNextChunk` runs, if any. */
    method Tick()
      requires Valid()
      modifies this
      ensures Valid() && peripheralBound == old(peripheralBound) && txBound == old(txBound)
      ensures var e := PrintJob.Tick(old(State()));
              State() == e.job && sent == old(sent) + Wire(peripheralBound && txBound, e.sent)
    {
      if pendingTicks == 0 {
        return;
      }
      pendingTicks := pendingTicks - 1;
      ghost var s := State();
      assert PrintJob.Tick(old(State())) == PrintJob.SendNextChunk(s);
      SendNextChunk();
    }

    /** The flow-control branch of `peripheral(_:didUpdateValueFor:error:)`. */
    method OnNotify(bytes: seq<Byte>)
      requires Valid()
      modifies this
      ensures Valid() && peripheralBound == old(peripheralBound) && txBound == old(txBound)
      ensures var e := PrintJob.Notify(old(State()), bytes);
              State() == e.job && sent == old(sent) + Wire(peripheralBound && txBound, e.sent)
    {
      if |bytes| >= 9 && bytes[0] == 0x51 && bytes[1] == 0x78 && bytes[2] == 0xAE && bytes[3] == 0x01 {
        if bytes[6] == 0x10 && bytes[7] == 0x70 {
          isPaused := true;
        } else if bytes[6] == 0x00 && bytes[7] == 0x00 {
          isPaused := false;
          SendNextChunk();
        }
      }
    }

    /** The main queue runs one deferred `isPrinting = false`, if any. */
    method RunPendingClear()
      requires Valid()
      modifies this
      ensures Valid() && peripheralBound == old(peripheralBound) && txBound == old(txBound)
      ensures var e := PrintJob.RunPendingClear(old(State()));
              State() == e.job && sent == old(sent) + Wire(peripheralBound && txBound, e.sent)
    {
      if pendingClears > 0 {
        isPrinting := false;
        pendingClears := pendingClears - 1;
      }
    }
  }
}
