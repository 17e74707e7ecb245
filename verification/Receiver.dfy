// The receiver object (tools/receiver/receiver.hpp, tools/receiver/receiver.cpp).
module Receiver {
  import opened ByteOrder
  import opened WireProtocol
  import opened Reassembly
  import opened SequenceTracker
  import opened CaptureFormat
  import opened CaptureModel
  import opened CommandText
  import opened ReceiverModel
  import Reassembler
  import CaptureWriter

  class Receiver {
    const reassembler: Reassembler.Reassembler
    const sequences: SequenceTracker
    const writer: CaptureWriter.CaptureWriter
    var recording: bool
    var stats: Stats
    ghost var completions: seq<CompletedMessage>

    ghost function View(): ReceiverState
      reads this, reassembler, sequences, writer
    {
      ReceiverState(reassembler.View(), sequences.sources, writer.View(), recording, stats, completions)
    }

    ghost predicate Valid()
      reads this, reassembler
    {
      reassembler.Valid()
    }

    constructor (limits: Limits, io: seq<IoEvent>)
      ensures Valid() && fresh(reassembler) && fresh(sequences) && fresh(writer)
      ensures reassembler.limits == limits && View() == NewReceiver(io)
    {
      reassembler := new Reassembler.Reassembler(limits);
      sequences := new SequenceTracker();
      writer := new CaptureWriter.CaptureWriter(io);
      recording, stats, completions := false, NO_STATS, [];
    }

    method NoteMalformed(reason: Reason, sourceId: u32, haveSource: bool)
      modifies `stats
      ensures stats == var noted := NoteReason(old(stats), reason);
        if haveSource then BlameSource(noted, sourceId) else noted
    {
      stats := stats.(malformed := stats.malformed + 1);
      var n := if reason in stats.malformedByReason then stats.malformedByReason[reason] else 0;
      stats := stats.(malformedByReason := stats.malformedByReason[reason := n + 1]);
      if haveSource {
        var c := CountsOf(stats, sourceId);
        stats := WithCounts(stats, sourceId, c.(malformed := c.malformed + 1));
      }
    }

    method HandleDatagram(d: bytes, now: u64)
      requires Valid()
      modifies this, reassembler, sequences, writer
      ensures Valid()
      ensures View() == ReceiverModel.HandleDatagram(reassembler.limits, old(View()), d, now)
    {
      hide Reassembly.Add, ReceiverModel.OnComplete, WriteRecord, CountsOf, WithCounts,
        ObserveMessage, CountDuplicate, CountDatagram, NoteReason;
      var err, hdr, payload := ParseDatagram(d);
      if err != Accepted {
        var haveSource := err != Truncated && err != BadMagic && err != BadVersion;
        NoteMalformed(Rejected(err), hdr.sourceId, haveSource);
        return;
      }
      var f: Fragment := ParsedDatagram(hdr, payload);
      stats := CountDatagram(stats, hdr.sourceId, |d|);
      var result, msg, newMessage := reassembler.Add(f, now);
      ghost var a := Reassembly.Add(reassembler.limits, old(View()).table, f, now);
      assert a == AddOutcome(reassembler.View(), result, msg, newMessage);
      ghost var counted := View();
      if newMessage {
        Observe(hdr);
      }
      ghost var seen := View();
      assert seen == if a.newMessage then ObserveMessage(counted, hdr) else counted;
      match result
      case Complete => OnComplete(msg);
      case Incomplete =>
      case Duplicate => stats := CountDuplicate(stats, hdr.sourceId);
      case Malformed => NoteMalformed(FragmentInconsistent, hdr.sourceId, true);
    }

    method Observe(hdr: Header)
      modifies `stats, sequences
      ensures View() == ObserveMessage(old(View()), hdr)
    {
      var outcome, missing := sequences.Observe(hdr.sourceId, hdr.sequence);
      var c := CountsOf(stats, hdr.sourceId);
      match outcome
      case Gap => stats := WithCounts(stats, hdr.sourceId,
                                      c.(gapEvents := c.gapEvents + 1, missing := c.missing + missing));
      case OutOfOrder => stats := WithCounts(stats, hdr.sourceId, c.(outOfOrder := c.outOfOrder + 1));
      case First =>
      case InOrder =>
    }

    method OnComplete(m: CompletedMessage)
      modifies this, writer
      ensures View() == ReceiverModel.OnComplete(old(View()), m)
    {
      hide WriteRecord;
      stats := CountComplete(stats, m);
      completions := completions + [m];
      if !recording || !writer.isOpen || writer.failed {
        stats := stats.(recordsSkipped := stats.recordsSkipped + 1);
        return;
      }
      var ok := writer.WriteRecord(RecordHeaderFor(m), m.data);
      if !ok {
        stats := stats.(writeErrors := stats.writeErrors + 1);
        recording := false;
        return;
      }
      var c := CountsOf(stats, m.sourceId);
      stats := WithCounts(stats, m.sourceId, c.(recordsWritten := c.recordsWritten + 1));
    }

    method SetRecording(enabled: bool, created: u64) returns (ok: bool)
      modifies this, writer
      ensures Answer(View(), ok) == ReceiverModel.SetRecording(old(View()), enabled, created)
    {
      hide CaptureModel.Open, CaptureModel.Flush;
      if enabled {
        if writer.failed { return false; }
        if !writer.isOpen {
          ok := writer.Open(created, VERSION);
          if !ok { return false; }
        }
        recording := true;
      } else {
        if recording && writer.isOpen {
          ok := writer.Flush(true);
          if !ok { stats := stats.(writeErrors := stats.writeErrors + 1); }
        }
        recording := false;
      }
      ok := true;
    }

    method HandleCommand(raw: string, created: u64) returns (ok: bool)
      modifies this, writer
      ensures Answer(View(), ok) == ReceiverModel.HandleCommand(old(View()), CommandOf(Normal(raw)), created)
    {
      hide ReceiverModel.SetRecording, CaptureModel.Flush, CommandOf, Normal;
      stats := stats.(commands := stats.commands + 1);
      var norm := Normalise(raw);
      match CommandOf(norm)
      case RecordOn => ok := SetRecording(true, created);
      case RecordOff => ok := SetRecording(false, created);
      case RecordToggle => ok := SetRecording(!recording, created);
      case FlushFile =>
        if writer.isOpen {
          ok := writer.Flush(true);
          if !ok {
            stats := stats.(writeErrors := stats.writeErrors + 1);
            return false;
          }
        }
        ok := true;
      case ReportStats => ok := true;
      case UnknownCommand => ok := false;
    }

    method SweepReassembly(now: u64)
      requires Valid()
      modifies `stats, reassembler
      ensures Valid()
      ensures View() == Sweep(reassembler.limits, old(View()), now)
    {
      hide Reassembly.Expire;
      var expired := reassembler.Expire(now);
      for i := 0 to |expired|
        modifies `stats
        invariant stats == CountIncomplete(old(stats), expired[..i])
      {
        assert expired[..i + 1][..i] == expired[..i];
        stats := stats.(incomplete := stats.incomplete + 1);
        var id := expired[i].sourceId;
        stats := WithCounts(stats, id, CountsOf(stats, id).(incomplete := CountsOf(stats, id).incomplete + 1));
      }
      assert expired[..|expired|] == expired;
    }

    // The flush part of poll_once.
    method Flush(sync: bool)
      modifies `stats, writer
      ensures View() == FlushTick(old(View()), sync)
    {
      hide CaptureModel.Flush;
      if writer.isOpen && !writer.failed {
        var ok := writer.Flush(sync);
        if !ok { stats := stats.(writeErrors := stats.writeErrors + 1); }
      }
    }

    // The end of run, behind its loop.
    method ShutDown(now: u64) returns (code: int)
      requires Valid()
      modifies this, reassembler, writer
      ensures Valid() && (code == 0 || code == 1)
      ensures Answer(View(), code == 0) == ReceiverModel.ShutDown(reassembler.limits, old(View()), now)
    {
      hide Sweep, CaptureModel.Close;
      SweepReassembly(now);
      code := 0;
      if writer.isOpen {
        var ok := writer.Close();
        if !ok {
          stats := stats.(writeErrors := stats.writeErrors + 1);
          code := 1;
        }
      }
    }

    // The destructor.
    method Destroy()
      modifies writer
      ensures View() == ReceiverModel.Destroy(old(View()))
    {
      if writer.isOpen {
        var _ := writer.Close();
      }
    }
  }
}
