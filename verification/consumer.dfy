/** The consumer handle held by the Lua side: setters that queue commands for
    the worker, getters over the values given at creation, and the pull
    operation `updateRender` that drains the event channel. Also `lua_new`,
    which resolves the target and wires a handle to a fresh worker. */
module Consumer {
  import opened Basics
  import opened Codec
  import opened Protocol
  import opened Worker
  import opened Targets

  /** A registered close callback, known by its registry key. */
  type Callback = nat

  // ---------------------------------------------------------------------
  // The commands the handle sends

  function SetFrameRateCommand(frameRate: i32): (c: Command)
    ensures c.name == "setFrameRate" && ParseI32(c.value) == Some(frameRate)
  {
    ParseToStringRoundTrip(frameRate);
    Command("setFrameRate", I32ToString(frameRate))
  }

  function SetResolutionCommand(width: i32, height: i32): (c: Command)
    ensures c.name == "setResolution" && |Split(c.value, '@')| == 2
    ensures DecodeResolution(c.value) == (width, height)
  {
    ResolutionRoundTrip(width, height);
    Command("setResolution", EncodeResolution(width, height))
  }

  function SetWidthCommand(width: i32): (c: Command)
    ensures c.name == "setWidth" && ParseI32(c.value) == Some(width)
  {
    ParseToStringRoundTrip(width);
    Command("setWidth", I32ToString(width))
  }

  function SetHeightCommand(height: i32): (c: Command)
    ensures c.name == "setHeight" && ParseI32(c.value) == Some(height)
  {
    ParseToStringRoundTrip(height);
    Command("setHeight", I32ToString(height))
  }

  const StopCommand: Command := Command("stop", "")

  /** What the handle asks for is what the worker applies: each setter's
      command is readable by the worker and carries exactly the requested
      value for the field it names, and nothing for the others. */
  lemma SetFrameRateCarries(frameRate: i32)
    ensures Decodable(SetFrameRateCommand(frameRate))
    ensures Carried(SetFrameRateCommand(frameRate), FrameRate) == Some(frameRate)
    ensures Carried(SetFrameRateCommand(frameRate), Width) == None
    ensures Carried(SetFrameRateCommand(frameRate), Height) == None
  {
    ParseToStringRoundTrip(frameRate);
  }

  lemma SetResolutionCarries(width: i32, height: i32)
    ensures Decodable(SetResolutionCommand(width, height))
    ensures Carried(SetResolutionCommand(width, height), Width) == Some(width)
    ensures Carried(SetResolutionCommand(width, height), Height) == Some(height)
    ensures Carried(SetResolutionCommand(width, height), FrameRate) == None
  {
    ResolutionRoundTrip(width, height);
  }

  lemma SetWidthCarries(width: i32)
    ensures Decodable(SetWidthCommand(width))
    ensures Carried(SetWidthCommand(width), Width) == Some(width)
    ensures Carried(SetWidthCommand(width), Height) == None
    ensures Carried(SetWidthCommand(width), FrameRate) == None
  {
    ParseToStringRoundTrip(width);
  }

  lemma SetHeightCarries(height: i32)
    ensures Decodable(SetHeightCommand(height))
    ensures Carried(SetHeightCommand(height), Height) == Some(height)
    ensures Carried(SetHeightCommand(height), Width) == None
    ensures Carried(SetHeightCommand(height), FrameRate) == None
  {
    ParseToStringRoundTrip(height);
  }

  // ---------------------------------------------------------------------
  // Draining events

  /** The part of the handle that draining events changes. */
  datatype View = View(running: bool, frame: Frame, calls: seq<Callback>)

  /** The registered callback, invoked once. */
  function Invoke(onClose: Option<Callback>): seq<Callback> {
    match onClose
    case Some(cb) => [cb]
    case None => []
  }

  /** One event taken from the channel. */
  function Receive(v: View, onClose: Option<Callback>, e: Event): View
  {
    if e.tag == "closed" then View(false, EmptyFrame, v.calls + Invoke(onClose))
    else if e.tag == "frame" && v.running then v.(frame := e.frame)
    else v
  }

  /** The events taken in arrival order. */
  function ReceiveAll(v: View, onClose: Option<Callback>, evs: seq<Event>): View
  {
    if evs == [] then v else Receive(ReceiveAll(v, onClose, evs[..|evs| - 1]), onClose, evs[|evs| - 1])
  }

  /** One event: only "closed" stops the handle, and it invokes the callback;
      the held frame changes only to the empty frame on "closed" or to the
      delivered frame on "frame" while running. */
  lemma ReceiveEffect(v: View, onClose: Option<Callback>, e: Event)
    ensures Receive(v, onClose, e).running <==> v.running && e.tag != "closed"
    ensures Receive(v, onClose, e).calls == v.calls + (if e.tag == "closed" then Invoke(onClose) else [])
    ensures var f := Receive(v, onClose, e).frame;
            f == v.frame || (e.tag == "closed" && f == EmptyFrame) || (e.tag == "frame" && v.running && f == e.frame)
  {
  }

  /** Over any stretch of events, running never comes back, callback calls
      are only ever appended, and a stopped handle only ever holds its old
      frame or the empty one. */
  lemma {:induction false} ReceiveAllMonotone(v: View, onClose: Option<Callback>, evs: seq<Event>)
    ensures ReceiveAll(v, onClose, evs).running ==> v.running
    ensures var calls := ReceiveAll(v, onClose, evs).calls;
            |v.calls| <= |calls| && calls[..|v.calls|] == v.calls
    ensures !v.running ==> ReceiveAll(v, onClose, evs).frame in {v.frame, EmptyFrame}
  {
    if evs != [] {
      var prev := ReceiveAll(v, onClose, evs[..|evs| - 1]);
      ReceiveAllMonotone(v, onClose, evs[..|evs| - 1]);
      ReceiveEffect(prev, onClose, evs[|evs| - 1]);
      assert (prev.calls + Invoke(onClose))[..|v.calls|] == prev.calls[..|v.calls|];
    }
  }

  function ClosedCount(evs: seq<Event>): nat {
    if evs == [] then 0
    else ClosedCount(evs[..|evs| - 1]) + if evs[|evs| - 1].tag == "closed" then 1 else 0
  }

  lemma {:induction false} ClosedCountAppend(a: seq<Event>, b: seq<Event>)
    ensures ClosedCount(a + b) == ClosedCount(a) + ClosedCount(b)
  {
    if b != [] {
      ClosedCountAppend(a, b[..|b| - 1]);
      assert (a + b)[..|a + b| - 1] == a + b[..|b| - 1];
    } else {
      assert a + b == a;
    }
  }

  /** The invocations n closed events cause: n calls of the registered
      callback, or none when no callback is registered. */
  function CallsFor(onClose: Option<Callback>, n: nat): (r: seq<Callback>)
    ensures onClose.None? ==> r == []
    ensures onClose.Some? ==> |r| == n && forall i :: 0 <= i < n ==> r[i] == onClose.value
  {
    match onClose
    case Some(cb) => seq(n, _ => cb)
    case None => []
  }

  /** j is the position of the last frame event among evs. */
  predicate LastFrameAt(evs: seq<Event>, j: int) {
    0 <= j < |evs| && evs[j].tag == "frame" && forall k :: j < k < |evs| ==> evs[k].tag != "frame"
  }

  /** The handle is running after a drain exactly when it was running before
      and the drain saw no closed event: running only goes from true to
      false. */
  lemma {:induction false} DrainRunning(v: View, onClose: Option<Callback>, evs: seq<Event>)
    ensures ReceiveAll(v, onClose, evs).running <==> v.running && ClosedCount(evs) == 0
  {
    if evs != [] {
      DrainRunning(v, onClose, evs[..|evs| - 1]);
    }
  }

  /** The close callback runs once per closed event drained, and only when
      one is registered. */
  lemma {:induction false} DrainCalls(v: View, onClose: Option<Callback>, evs: seq<Event>)
    ensures ReceiveAll(v, onClose, evs).calls == v.calls + CallsFor(onClose, ClosedCount(evs))
  {
    if evs != [] {
      var init := evs[..|evs| - 1];
      DrainCalls(v, onClose, init);
      var n := ClosedCount(init);
      if evs[|evs| - 1].tag == "closed" && onClose.Some? {
        assert CallsFor(onClose, n + 1) == CallsFor(onClose, n) + [onClose.value];
      }
    }
  }

  /** The held frame after a drain: the empty frame once any closed event
      was seen; otherwise, while running, the last delivered frame, and the
      old frame when there is none or the handle has stopped. */
  lemma {:induction false} DrainFrame(v: View, onClose: Option<Callback>, evs: seq<Event>)
    ensures ClosedCount(evs) > 0 ==> ReceiveAll(v, onClose, evs).frame == EmptyFrame
    ensures ClosedCount(evs) == 0 && !v.running ==> ReceiveAll(v, onClose, evs).frame == v.frame
    ensures ClosedCount(evs) == 0 && v.running ==>
              forall j :: LastFrameAt(evs, j) ==> ReceiveAll(v, onClose, evs).frame == evs[j].frame
    ensures ClosedCount(evs) == 0 && (forall j :: 0 <= j < |evs| ==> evs[j].tag != "frame") ==>
              ReceiveAll(v, onClose, evs).frame == v.frame
  {
    if evs != [] {
      var n := |evs| - 1;
      var init := evs[..n];
      DrainFrame(v, onClose, init);
      DrainRunning(v, onClose, init);
      if ClosedCount(evs) == 0 {
        assert ClosedCount(init) == 0;
        forall j | LastFrameAt(evs, j) && v.running
          ensures ReceiveAll(v, onClose, evs).frame == evs[j].frame
        {
          if j < n {
            assert init[j] == evs[j];
            assert LastFrameAt(init, j);
          }
        }
        if forall j :: 0 <= j < |evs| ==> evs[j].tag != "frame" {
          forall j | 0 <= j < |init| ensures init[j].tag != "frame" { assert init[j] == evs[j]; }
        }
      }
    }
  }

  /** A drain that meets exactly one closed event ends stopped, empty, with
      one call of the registered callback. */
  lemma DrainWithOneClose(v: View, onClose: Option<Callback>, events: seq<Event>)
    requires ClosedCount(events) == 1 && onClose.Some?
    ensures ReceiveAll(v, onClose, events) == View(false, EmptyFrame, v.calls + [onClose.value])
  {
    DrainRunning(v, onClose, events);
    DrainCalls(v, onClose, events);
    DrainFrame(v, onClose, events);
    assert CallsFor(onClose, 1) == [onClose.value];
  }
  // ---------------------------------------------------------------------
  // The handle

  class LuaCapture {
    const rx: Channel<Event>
    const tx: Channel<Command>
    var width: i32
    var height: i32
    var frameRate: i32
    var frame: Frame
    var onClose: Option<Callback>
    var running: bool
    /** The close-callback invocations so far, oldest first. */
    var calls: seq<Callback>

    /** Every command waiting for the worker can be read by it. */
    ghost predicate Valid()
      reads this, tx
    {
      AllDecodable(tx.items)
    }

    function Snapshot(): View
      reads this
    {
      View(running, frame, calls)
    }

    /** The handle `lua_new` returns: running, holding the empty frame, no
        callback. */
    constructor (tx: Channel<Command>, rx: Channel<Event>, width: i32, height: i32, frameRate: i32)
      requires AllDecodable(tx.items)
      ensures Valid()
      ensures this.tx == tx && this.rx == rx
      ensures this.width == width && this.height == height && this.frameRate == frameRate
      ensures frame == EmptyFrame && onClose == None && running && calls == []
    {
      this.tx := tx;
      this.rx := rx;
      this.width := width;
      this.height := height;
      this.frameRate := frameRate;
      frame := EmptyFrame;
      onClose := None;
      running := true;
      calls := [];
    }

    method SetFrameRate(frameRate': i32)
      requires Valid()
      modifies tx
      ensures Valid() && unchanged(this)
      ensures tx.items == old(tx.items) + [SetFrameRateCommand(frameRate')]
    {
      SetFrameRateCarries(frameRate');
      tx.Send(SetFrameRateCommand(frameRate'));
    }

    method SetResolution(width': i32, height': i32)
      requires Valid()
      modifies tx
      ensures Valid() && unchanged(this)
      ensures tx.items == old(tx.items) + [SetResolutionCommand(width', height')]
    {
      SetResolutionCarries(width', height');
      tx.Send(SetResolutionCommand(width', height'));
    }

    method SetWidth(width': i32)
      requires Valid()
      modifies tx
      ensures Valid() && unchanged(this)
      ensures tx.items == old(tx.items) + [SetWidthCommand(width')]
    {
      SetWidthCarries(width');
      tx.Send(SetWidthCommand(width'));
    }

    method SetHeight(height': i32)
      requires Valid()
      modifies tx
      ensures Valid() && unchanged(this)
      ensures tx.items == old(tx.items) + [SetHeightCommand(height')]
    {
      SetHeightCarries(height');
      tx.Send(SetHeightCommand(height'));
    }

    /** The getters report the values given at creation: the setters only
        queue commands and never touch these mirrors. */
    method GetFrameRate() returns (r: i32)
      ensures r == frameRate
    {
      r := frameRate;
    }

    method GetResolution() returns (w: i32, h: i32)
      ensures w == width && h == height
    {
      w, h := width, height;
    }

    method GetWidth() returns (w: i32)
      ensures w == width
    {
      w := width;
    }

    method GetHeight() returns (h: i32)
      ensures h == height
    {
      h := height;
    }

    /** Registering a callback replaces any earlier one. */
    method OnClose(callback: Callback)
      requires Valid()
      modifies this
      ensures Valid()
      ensures onClose == Some(callback)
      ensures running == old(running) && frame == old(frame) && calls == old(calls)
      ensures width == old(width) && height == old(height) && frameRate == old(frameRate)
    {
      onClose := Some(callback);
    }

    method IsRunning() returns (r: bool)
      ensures r == running
    {
      r := running;
    }

    method Stop()
      requires Valid()
      modifies tx
      ensures Valid() && unchanged(this)
      ensures tx.items == old(tx.items) + [StopCommand]
    {
      tx.Send(StopCommand);
    }

    /** `updateRender`: drains every pending event, then returns the held
        frame, or an empty 0x0 result when the caller asked for no data. */
    method UpdateRender(notReturnData: bool) returns (data: seq<byte>, w: u32, h: u32)
      requires Valid()
      modifies this, rx
      ensures Valid()
      ensures rx.items == []
      ensures Snapshot() == ReceiveAll(old(Snapshot()), onClose, old(rx.items))
      ensures onClose == old(onClose)
      ensures width == old(width) && height == old(height) && frameRate == old(frameRate)
      ensures notReturnData ==> data == [] && w == 0 && h == 0
      ensures !notReturnData ==> data == frame.data && w == frame.width && h == frame.height
    {
      ghost var pending := rx.items;
      ghost var start := Snapshot();
      ghost var done := 0;

      while true
        invariant done <= |pending| && rx.items == pending[done..]
        invariant Snapshot() == ReceiveAll(start, onClose, pending[..done])
        invariant onClose == old(onClose)
        invariant width == old(width) && height == old(height) && frameRate == old(frameRate)
        decreases |rx.items|
      {
        var next := rx.TryRecv();
        if next.None? {
          break;
        }
        var event := next.value;
        assert event == pending[done];
        if event.tag == "closed" {
          running := false;
          frame := EmptyFrame;
          if onClose.Some? {
            calls := calls + [onClose.value];
          }
        } else if event.tag == "frame" {
          if running {
            frame := event.frame;
          }
        }
        assert pending[..done + 1][..done] == pending[..done];
        done := done + 1;
      }
      assert pending[..done] == pending;

      if notReturnData {
        return [], 0, 0;
      }
      return frame.data, frame.width, frame.height;
    }

    /** `getFrame`: the held frame, without draining anything. */
    method GetFrame() returns (f: Frame)
      ensures f == frame
    {
      f := frame;
    }
  }

  // ---------------------------------------------------------------------
  // Creation

  /** The options table given to `new`; a missing entry reads as 0. */
  datatype Options = Options(target: Option<i32>, width: Option<i32>, height: Option<i32>, frameRate: Option<i32>)

  /** A started pipeline: the handle, the worker behind it, and the target
      it captures. */
  datatype Pipeline = Pipeline(handle: LuaCapture, worker: Capture, target: Target)

  /** `lua_new`: an unknown target fails with "Invalid target"; otherwise a
      worker and a handle share two fresh empty channels and start from the
      same requested settings. `now` is the clock reading at creation. */
  method New(options: Options, monitors: seq<usize>, windows: seq<usize>, now: real)
    returns (r: Result<Pipeline, string>)
    ensures r.Failure? <==> FindMonitorOrWindow(options.target.GetOr(0), monitors, windows).None?
    ensures r.Failure? ==> r.error == "Invalid target"
    ensures r.Success? ==>
              var p := r.value;
              var width, height, frameRate := options.width.GetOr(0), options.height.GetOr(0), options.frameRate.GetOr(0);
              && Some(p.target) == FindMonitorOrWindow(options.target.GetOr(0), monitors, windows)
              && fresh(p.handle) && fresh(p.worker) && fresh(p.handle.tx) && fresh(p.handle.rx)
              && p.worker.rx == p.handle.tx && p.worker.tx == p.handle.rx
              && p.handle.tx.items == [] && p.handle.rx.items == []
              && p.handle.Valid()
              && p.handle.width == width && p.handle.height == height && p.handle.frameRate == frameRate
              && p.handle.frame == EmptyFrame && p.handle.running && p.handle.onClose == None && p.handle.calls == []
              && p.worker.Current() == Settings(width, height, frameRate)
              && p.worker.frameRateTime == now && p.worker.stopRequests == 0
  {
    var target := options.target.GetOr(0);
    var width := options.width.GetOr(0);
    var height := options.height.GetOr(0);
    var frameRate := options.frameRate.GetOr(0);

    var toLua := new Channel<Event>();
    var toFrame := new Channel<Command>();
    var flags := Flags(Some(width), Some(height), Some(frameRate), toLua, toFrame, now);

    match FindMonitorOrWindow(target, monitors, windows)
    case None =>
      return Failure("Invalid target");
    case Some(t) =>
      var worker := new Capture(flags);
      var handle := new LuaCapture(toFrame, toLua, width, height, frameRate);
      return Success(Pipeline(handle, worker, t));
  }
}
