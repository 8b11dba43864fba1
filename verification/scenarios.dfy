/** Whole-pipeline runs: a handle and its worker created by `New`, driven
    step by step through the shared channels. */
module Scenarios {
  import opened Basics
  import opened Protocol
  import opened Worker
  import opened Targets
  import opened Consumer

  /** With no requested size and no frame-rate cap, one captured frame and
      one refresh leave the handle holding that frame at its own size. */
  method NativeSizeDelivery(source: Frame, now: real, elapsed: bool, resample: Resampler)
    returns (running: bool, held: Frame)
    ensures running && held == source
  {
    var created := New(Options(Some(1), Some(0), Some(0), Some(0)), [1], [], 0.0);
    assert FindMonitorOrWindow(1, [1], []) == Some(Monitor(0));
    var p := created.value;
    p.worker.OnFrameArrived(source, now, elapsed, resample);
    assert p.handle.rx.items == [FrameEvent(source)];
    var _, _, _ := p.handle.UpdateRender(true);
    running := p.handle.IsRunning();
    held := p.handle.GetFrame();
  }

  /** A fresh pipeline on monitor 0 with a close callback registered, whose
      handle then calls `setResolution(width, height)` and `stop()` before the
      worker sees a frame. */
  method QueueResolutionThenStop(width: i32, height: i32) returns (handle: LuaCapture, worker: Capture)
    ensures fresh(handle) && fresh(worker) && fresh(handle.tx) && fresh(handle.rx)
    ensures worker.rx == handle.tx && worker.tx == handle.rx
    ensures worker.rx.items == [SetResolutionCommand(width, height), StopCommand] && worker.tx.items == []
    ensures worker.stopRequests == 0
    ensures handle.Valid() && handle.Snapshot() == View(true, EmptyFrame, []) && handle.onClose == Some(7)
  {
    var created := New(Options(Some(1), Some(0), Some(0), Some(0)), [1], [], 0.0);
    assert FindMonitorOrWindow(1, [1], []) == Some(Monitor(0));
    handle, worker := created.value.handle, created.value.worker;
    handle.OnClose(7);
    handle.SetResolution(width, height);
    handle.Stop();
  }

  /** A single "closed" followed by at most one frame event holds exactly
      one "closed". */
  lemma OneClosingThenFrames(tail: seq<Event>)
    requires |tail| <= 1 && forall i :: 0 <= i < |tail| ==> tail[i].tag == "frame"
    ensures ClosedCount(Closings(1) + tail) == 1
  {
    assert Closings(1) == [ClosedEvent];
    assert ClosedCount([ClosedEvent]) == 1 by { assert [ClosedEvent][..0] == []; }
    ClosedCountAppend([ClosedEvent], tail);
    if tail != [] {
      assert tail[..0] == [];
    }
  }

  /** `setResolution` then `stop` before the worker runs, as the source is
      written: the stop stands second in the batch and is lost, so after a
      refresh the handle is still running and nothing was closed. */
  method ResolutionThenStopAsWritten(width: i32, height: i32, source: Frame, now: real, elapsed: bool, resample: Resampler)
    returns (running: bool, stopRequests: nat, calls: seq<Callback>)
    ensures running && stopRequests == 0 && calls == []
  {
    var handle, worker := QueueResolutionThenStop(width, height);
    StopBehindCommandIsLost(SetResolutionCommand(width, height), StopCommand);
    worker.OnFrameArrived(source, now, elapsed, resample);
    stopRequests := worker.stopRequests;

    ghost var events := handle.rx.items;
    ghost var before := handle.Snapshot();
    assert before == View(true, EmptyFrame, []);
    assert ClosedCount(events) == 0;
    DrainRunning(before, Some(7), events);
    DrainCalls(before, Some(7), events);
    var _, _, _ := handle.UpdateRender(true);
    running := handle.IsRunning();
    calls := handle.calls;
  }

  /** The same run with the stop honoured wherever it stands: one refresh
      drains both effects, the handle has stopped, holds the empty frame,
      and the close callback ran exactly once. */
  method ResolutionThenStop(width: i32, height: i32, source: Frame, now: real, elapsed: bool, resample: Resampler)
    returns (running: bool, held: Frame, stopRequests: nat, calls: seq<Callback>)
    ensures !running && held == EmptyFrame && stopRequests == 1 && calls == [7]
  {
    var handle, worker := QueueResolutionThenStop(width, height);
    StopBehindCommandIsLost(SetResolutionCommand(width, height), StopCommand);
    worker.OnFrameArrivedHonouringStop(source, now, elapsed, resample);
    stopRequests := worker.stopRequests;

    ghost var events := handle.rx.items;
    ghost var before := handle.Snapshot();
    assert before == View(true, EmptyFrame, []);
    assert events == Closings(1) + events[1..] && |events[1..]| <= 1;
    OneClosingThenFrames(events[1..]);
    DrainWithOneClose(before, Some(7), events);
    var _, _, _ := handle.UpdateRender(true);
    running := handle.IsRunning();
    held := handle.GetFrame();
    calls := handle.calls;
  }
}
