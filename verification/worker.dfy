/** The capture worker: the handler the capture session calls once per
    captured frame. Each call drains the command channel, applies the
    frame-rate gate and sends the frame, at its own size or resampled to the
    requested size, on the event channel. */
module Worker {
  import opened Basics
  import opened Codec
  import opened Protocol

  /** The values a command can set: requested width and height (0 = the
      frame's own size) and frame rate (0 or less = every frame). */
  datatype Settings = Settings(width: i32, height: i32, frameRate: i32)

  datatype Field = Width | Height | FrameRate

  function Get(s: Settings, f: Field): i32 {
    match f
    case Width => s.width
    case Height => s.height
    case FrameRate => s.frameRate
  }

  /** The worker can read the command without panicking: a "setResolution"
      payload must have a second '@'-separated piece. */
  predicate Decodable(c: Command) {
    c.name == "setResolution" ==> |Split(c.value, '@')| >= 2
  }

  predicate AllDecodable(cmds: seq<Command>) {
    forall i :: 0 <= i < |cmds| ==> Decodable(cmds[i])
  }

  /** The value command c assigns to field f, or None when c leaves f alone. */
  function Carried(c: Command, f: Field): Option<i32>
    requires Decodable(c)
  {
    match f
    case Width =>
      if c.name == "setResolution" then Some(DecodeResolution(c.value).0)
      else if c.name == "setWidth" then Some(ParseOrZero(c.value))
      else None
    case Height =>
      if c.name == "setResolution" then Some(DecodeResolution(c.value).1)
      else if c.name == "setHeight" then Some(ParseOrZero(c.value))
      else None
    case FrameRate =>
      if c.name == "setFrameRate" then Some(ParseOrZero(c.value)) else None
  }

  /** The effect of one command on the settings. */
  function Apply(s: Settings, c: Command): (r: Settings)
    requires Decodable(c)
    ensures forall f :: Get(r, f) == Carried(c, f).GetOr(Get(s, f))
  {
    if c.name == "setFrameRate" then s.(frameRate := ParseOrZero(c.value))
    else if c.name == "setResolution" then
      var (w, h) := DecodeResolution(c.value);
      s.(width := w, height := h)
    else if c.name == "setWidth" then s.(width := ParseOrZero(c.value))
    else if c.name == "setHeight" then s.(height := ParseOrZero(c.value))
    else s
  }

  /** The commands applied in arrival order. */
  function ApplyAll(s: Settings, cmds: seq<Command>): Settings
    requires AllDecodable(cmds)
  {
    if cmds == [] then s else Apply(ApplyAll(s, cmds[..|cmds| - 1]), cmds[|cmds| - 1])
  }

  /** Whether a drain of cmds honours a stop: only a "stop" received first. */
  predicate StopFirst(cmds: seq<Command>) {
    |cmds| > 0 && cmds[0].name == "stop"
  }

  /** j is the last position in cmds of a command that sets field f. */
  predicate LastSetterAt(cmds: seq<Command>, f: Field, j: int)
    requires AllDecodable(cmds)
  {
    0 <= j < |cmds| && Carried(cmds[j], f).Some?
    && forall k :: j < k < |cmds| ==> Carried(cmds[k], f).None?
  }

  lemma InitDecodable(cmds: seq<Command>)
    requires AllDecodable(cmds) && cmds != []
    ensures AllDecodable(cmds[..|cmds| - 1])
  {
    var init := cmds[..|cmds| - 1];
    forall i | 0 <= i < |init| ensures Decodable(init[i]) { assert init[i] == cmds[i]; }
  }

  /** Last write wins: after a drain a field holds the value carried by the
      last command that sets it. */
  lemma {:induction false} LastWriteWins(s: Settings, cmds: seq<Command>, f: Field, j: int)
    requires AllDecodable(cmds) && LastSetterAt(cmds, f, j)
    ensures Get(ApplyAll(s, cmds), f) == Carried(cmds[j], f).value
  {
    var n := |cmds| - 1;
    var init := cmds[..n];
    InitDecodable(cmds);
    var before := ApplyAll(s, init);
    assert ApplyAll(s, cmds) == Apply(before, cmds[n]);
    if j < n {
      assert Carried(cmds[n], f).None?;
      assert init[j] == cmds[j];
      forall k | j < k < |init| ensures Carried(init[k], f).None? { assert init[k] == cmds[k]; }
      LastWriteWins(s, init, f, j);
    }
  }

  /** Every field after a drain holds either its old value or a value some
      command of the drain carries: nothing else can appear. */
  lemma {:induction false} ValueComesFromBatch(s: Settings, cmds: seq<Command>, f: Field)
    requires AllDecodable(cmds)
    ensures Get(ApplyAll(s, cmds), f) == Get(s, f)
         || exists i :: 0 <= i < |cmds| && Carried(cmds[i], f) == Some(Get(ApplyAll(s, cmds), f))
  {
    if cmds != [] {
      var n := |cmds| - 1;
      var init := cmds[..n];
      InitDecodable(cmds);
      ValueComesFromBatch(s, init, f);
      var prev := ApplyAll(s, init);
      var r := ApplyAll(s, cmds);
      assert r == Apply(prev, cmds[n]);
      if Carried(cmds[n], f).None? && Get(r, f) != Get(s, f) {
        var i :| 0 <= i < |init| && Carried(init[i], f) == Some(Get(prev, f));
        assert init[i] == cmds[i];
      }
    }
  }

  /** A field that no command of the drain sets keeps its old value. */
  lemma {:induction false} UnsetFieldKept(s: Settings, cmds: seq<Command>, f: Field)
    requires AllDecodable(cmds)
    requires forall j :: 0 <= j < |cmds| ==> Carried(cmds[j], f).None?
    ensures Get(ApplyAll(s, cmds), f) == Get(s, f)
  {
    if cmds != [] {
      var n := |cmds| - 1;
      var init := cmds[..n];
      InitDecodable(cmds);
      forall j | 0 <= j < |init| ensures Carried(init[j], f).None? { assert init[j] == cmds[j]; }
      UnsetFieldKept(s, init, f);
      assert Carried(cmds[n], f).None?;
      assert ApplyAll(s, cmds) == Apply(ApplyAll(s, init), cmds[n]);
    }
  }

  /** Commands other than the four setters leave every field alone. */
  lemma UnknownCommandIsNoOp(s: Settings, c: Command)
    requires c.name !in {"setFrameRate", "setResolution", "setWidth", "setHeight"}
    ensures Apply(s, c) == s
  {
  }

  /** A "stop" anywhere but first in a drain has no effect: the drain with it
      honours a stop exactly when the drain without it does, and ends in the
      same settings. */
  lemma {:induction false} LaterStopIgnored(s: Settings, a: seq<Command>, stop: Command, b: seq<Command>)
    requires |a| >= 1 && stop.name == "stop"
    requires AllDecodable(a) && AllDecodable(b)
    ensures AllDecodable(a + [stop] + b) && AllDecodable(a + b)
    ensures StopFirst(a + [stop] + b) == StopFirst(a + b)
    ensures ApplyAll(s, a + [stop] + b) == ApplyAll(s, a + b)
  {
    var with := a + [stop] + b;
    var without := a + b;
    assert AllDecodable(with) by {
      forall i | 0 <= i < |with| ensures Decodable(with[i]) {
        if i < |a| { assert with[i] == a[i]; }
        else if i > |a| { assert with[i] == b[i - |a| - 1]; }
      }
    }
    assert AllDecodable(without) by {
      forall i | 0 <= i < |without| ensures Decodable(without[i]) {
        if i < |a| { assert without[i] == a[i]; } else { assert without[i] == b[i - |a|]; }
      }
    }
    assert with[0] == a[0] && without[0] == a[0];
    if b == [] {
      assert with[..|with| - 1] == a && without == a;
    } else {
      var b' := b[..|b| - 1];
      assert AllDecodable(b') by {
        forall i | 0 <= i < |b'| ensures Decodable(b'[i]) { assert b'[i] == b[i]; }
      }
      LaterStopIgnored(s, a, stop, b');
      assert with[..|with| - 1] == a + [stop] + b';
      assert without[..|without| - 1] == a + b';
      assert with[|with| - 1] == without[|without| - 1];
    }
  }

  /** How many "stop" commands a batch holds. */
  function StopCount(cmds: seq<Command>): nat {
    if cmds == [] then 0
    else StopCount(cmds[..|cmds| - 1]) + if cmds[|cmds| - 1].name == "stop" then 1 else 0
  }

  /** Taking one more command of a batch into the drain. */
  lemma DrainStep(s: Settings, pending: seq<Command>, done: nat)
    requires AllDecodable(pending) && done < |pending|
    ensures AllDecodable(pending[..done]) && AllDecodable(pending[..done + 1])
    ensures ApplyAll(s, pending[..done + 1]) == Apply(ApplyAll(s, pending[..done]), pending[done])
    ensures StopCount(pending[..done + 1]) == StopCount(pending[..done]) + if pending[done].name == "stop" then 1 else 0
  {
    assert pending[..done + 1][..done] == pending[..done];
  }

  /** n closed events in a row. */
  function Closings(n: nat): (r: seq<Event>)
    ensures |r| == n && forall i :: 0 <= i < n ==> r[i] == ClosedEvent
  {
    seq(n, _ => ClosedEvent)
  }

  lemma ClosingsSnoc(n: nat)
    ensures Closings(n + 1) == Closings(n) + [ClosedEvent]
  {
  }

  /** A batch holds a stop exactly when its stop count is positive. */
  lemma {:induction false} StopCountPositive(cmds: seq<Command>)
    ensures StopCount(cmds) > 0 <==> exists i :: 0 <= i < |cmds| && cmds[i].name == "stop"
  {
    if cmds != [] {
      var init := cmds[..|cmds| - 1];
      StopCountPositive(init);
      if exists i :: 0 <= i < |init| && init[i].name == "stop" {
        var i :| 0 <= i < |init| && init[i].name == "stop";
        assert cmds[i] == init[i];
      }
      if exists i :: 0 <= i < |cmds| && cmds[i].name == "stop" {
        var i :| 0 <= i < |cmds| && cmds[i].name == "stop";
        if i < |init| { assert init[i] == cmds[i]; }
      }
    }
  }

  /** The as-written drain loses a stop queued behind any other command:
      the batch [c, stop] holds a stop, yet the worker neither sends a closed
      event nor asks the session to stop. */
  lemma StopBehindCommandIsLost(c: Command, stop: Command)
    requires c.name != "stop" && stop.name == "stop"
    ensures StopCount([c, stop]) == 1 && !StopFirst([c, stop])
  {
    assert [c, stop][..1] == [c];
    assert [c][..0] == [];
    assert StopCount([c]) == 0;
  }

  // ---------------------------------------------------------------------
  // Emission

  /** The size a passed frame is emitted at: None for the frame's own size,
      Some((w, h)) when it must be resampled to the requested size. */
  function TargetSize(width: i32, height: i32, sourceWidth: u32, sourceHeight: u32): (r: Option<(u32, u32)>)
    ensures width == 0 || height == 0 ==> r == None
    ensures r.Some? <==> width != 0 && height != 0 && (I32AsU32(width), I32AsU32(height)) != (sourceWidth, sourceHeight)
    ensures r.Some? ==> r.value == (I32AsU32(width), I32AsU32(height))
  {
    if width == 0 || height == 0 then None
    else if width == U32AsI32(sourceWidth) && height == U32AsI32(sourceHeight) then None
    else Some((I32AsU32(width), I32AsU32(height)))
  }

  /** Lanczos-3 resampling of an RGBA8 image (source bytes, source width
      and height, target width and height), left uninterpreted. */
  type Resampler = (seq<byte>, u32, u32, u32, u32) -> seq<byte>

  /** The resampler fills a freshly allocated target image, so its output
      always has the target's byte length. */
  ghost predicate ResamplerSized(resample: Resampler) {
    forall data: seq<byte>, sw: u32, sh: u32, w: u32, h: u32 :: |resample(data, sw, sh, w, h)| == w * h * 4
  }

  /** The frame sent for a source frame that passed the rate gate. */
  function EmittedFrame(width: i32, height: i32, source: Frame, resample: Resampler): (f: Frame)
    ensures TargetSize(width, height, source.width, source.height) == None ==> f == source
    ensures 0 < width && 0 < height ==> f.width == width && f.height == height
    ensures f != source ==> f == Frame(resample(source.data, source.width, source.height, f.width, f.height), f.width, f.height)
    ensures TargetSize(width, height, source.width, source.height).Some? ==>
              f == Frame(resample(source.data, source.width, source.height, I32AsU32(width), I32AsU32(height)),
                         I32AsU32(width), I32AsU32(height))
  {
    match TargetSize(width, height, source.width, source.height)
    case None => source
    case Some((w, h)) => Frame(resample(source.data, source.width, source.height, w, h), w, h)
  }

  /** Emission keeps the four-bytes-per-pixel layout. */
  lemma EmittedFrameWellSized(width: i32, height: i32, source: Frame, resample: Resampler)
    requires WellSized(source) && ResamplerSized(resample)
    ensures WellSized(EmittedFrame(width, height, source, resample))
  {
  }

  /** What the capture session hands to the handler at start. */
  datatype Flags = Flags(
    width: Option<i32>,
    height: Option<i32>,
    frameRate: Option<i32>,
    tx: Channel<Event>,
    rx: Channel<Command>,
    frameRateTime: real)

  class Capture {
    var width: i32
    var height: i32
    var frameRate: i32
    /** Time of the last emitted frame, in seconds. */
    var frameRateTime: real
    /** How many times the handler asked the capture session to stop. */
    var stopRequests: nat
    const tx: Channel<Event>
    const rx: Channel<Command>

    function Current(): Settings
      reads this
    {
      Settings(width, height, frameRate)
    }

    /** `Capture::new`: missing settings default to 0. */
    constructor (flags: Flags)
      ensures Current() == Settings(flags.width.GetOr(0), flags.height.GetOr(0), flags.frameRate.GetOr(0))
      ensures tx == flags.tx && rx == flags.rx
      ensures frameRateTime == flags.frameRateTime && stopRequests == 0
    {
      width := flags.width.GetOr(0);
      height := flags.height.GetOr(0);
      frameRate := flags.frameRate.GetOr(0);
      tx := flags.tx;
      rx := flags.rx;
      frameRateTime := flags.frameRateTime;
      stopRequests := 0;
    }

    /** The setter branches shared by the first message and the rest. */
    method Update(cmd: Command)
      requires Decodable(cmd)
      modifies this
      ensures Current() == Apply(old(Current()), cmd)
      ensures frameRateTime == old(frameRateTime) && stopRequests == old(stopRequests)
    {
      if cmd.name == "setFrameRate" {
        frameRate := ParseOrZero(cmd.value);
      } else if cmd.name == "setResolution" {
        var args := Split(cmd.value, '@');
        width := ParseOrZero(args[0]);
        height := ParseOrZero(args[1]);
      } else if cmd.name == "setWidth" {
        width := ParseOrZero(cmd.value);
      } else if cmd.name == "setHeight" {
        height := ParseOrZero(cmd.value);
      }
    }

    /** `on_frame_arrived`. `now` is the clock reading and `elapsed` the
        outcome of the floating-point test "at least 1/frameRate seconds
        since the last emitted frame", consulted only when frameRate > 0. */
    method OnFrameArrived(source: Frame, now: real, elapsed: bool, resample: Resampler)
      requires AllDecodable(rx.items)
      modifies this, rx, tx
      ensures rx.items == []
      ensures Current() == ApplyAll(old(Current()), old(rx.items))
      ensures stopRequests == old(stopRequests) + if StopFirst(old(rx.items)) then 1 else 0
      ensures tx.items == old(tx.items)
                          + (if StopFirst(old(rx.items)) then [ClosedEvent] else [])
                          + (if frameRate <= 0 || elapsed then [FrameEvent(EmittedFrame(width, height, source, resample))] else [])
      ensures frameRateTime == if 0 < frameRate && elapsed then now else old(frameRateTime)
    {
      ghost var pending := rx.items;
      ghost var start := Current();
      ghost var closed: seq<Event> := if StopFirst(pending) then [ClosedEvent] else [];
      ghost var done := 0;

      var first := rx.TryRecv();
      if first.Some? {
        var cmd := first.value;
        assert cmd == pending[0];
        Update(cmd);
        if cmd.name == "stop" {
          tx.Send(ClosedEvent);
          stopRequests := stopRequests + 1;
        }
        done := 1;
        assert pending[..1] == [cmd];
      }

      while true
        invariant done <= |pending| && rx.items == pending[done..]
        invariant AllDecodable(pending[..done])
        invariant Current() == ApplyAll(start, pending[..done])
        invariant tx.items == old(tx.items) + closed
        invariant stopRequests == old(stopRequests) + |closed|
        invariant frameRateTime == old(frameRateTime)
        decreases |rx.items|
      {
        var next := rx.TryRecv();
        if next.None? {
          break;
        }
        assert next.value == pending[done];
        DrainStep(start, pending, done);
        Update(next.value);
        done := done + 1;
      }
      assert pending[..done] == pending;
      Emit(source, now, elapsed, resample);
    }

    /** The rate gate and the send of the frame, the tail of
        `on_frame_arrived`. */
    method Emit(source: Frame, now: real, elapsed: bool, resample: Resampler)
      modifies this, tx
      ensures Current() == old(Current()) && stopRequests == old(stopRequests)
      ensures tx.items == old(tx.items)
                          + (if frameRate <= 0 || elapsed then [FrameEvent(EmittedFrame(width, height, source, resample))] else [])
      ensures frameRateTime == if 0 < frameRate && elapsed then now else old(frameRateTime)
    {
      if frameRate > 0 {
        if !elapsed {
          return;
        }
        frameRateTime := now;
      }

      match TargetSize(width, height, source.width, source.height)
      case None =>
        tx.Send(FrameEvent(source));
      case Some((w, h)) =>
        var resized := resample(source.data, source.width, source.height, w, h);
        tx.Send(FrameEvent(Frame(resized, w, h)));
    }

    /** `on_frame_arrived` as evidently intended: the loop over the rest of
        the batch gets the "stop" branch the first message has, so every
        queued stop is honoured wherever it stands. */
    method OnFrameArrivedHonouringStop(source: Frame, now: real, elapsed: bool, resample: Resampler)
      requires AllDecodable(rx.items)
      modifies this, rx, tx
      ensures rx.items == []
      ensures Current() == ApplyAll(old(Current()), old(rx.items))
      ensures stopRequests == old(stopRequests) + StopCount(old(rx.items))
      ensures tx.items == old(tx.items)
                          + Closings(StopCount(old(rx.items)))
                          + (if frameRate <= 0 || elapsed then [FrameEvent(EmittedFrame(width, height, source, resample))] else [])
      ensures frameRateTime == if 0 < frameRate && elapsed then now else old(frameRateTime)
    {
      ghost var pending := rx.items;
      ghost var start := Current();
      ghost var done := 0;

      while true
        invariant done <= |pending| && rx.items == pending[done..]
        invariant AllDecodable(pending[..done])
        invariant Current() == ApplyAll(start, pending[..done])
        invariant tx.items == old(tx.items) + Closings(StopCount(pending[..done]))
        invariant stopRequests == old(stopRequests) + StopCount(pending[..done])
        invariant frameRateTime == old(frameRateTime)
        decreases |rx.items|
      {
        var next := rx.TryRecv();
        if next.None? {
          break;
        }
        var cmd := next.value;
        assert cmd == pending[done];
        DrainStep(start, pending, done);
        Update(cmd);
        if cmd.name == "stop" {
          tx.Send(ClosedEvent);
          stopRequests := stopRequests + 1;
        }
        ClosingsSnoc(StopCount(pending[..done]));
        done := done + 1;
      }
      assert pending[..done] == pending;
      Emit(source, now, elapsed, resample);
    }

    /** `on_closed`: the capture session ended on its own. */
    method OnClosed()
      modifies tx
      ensures tx.items == old(tx.items) + [ClosedEvent]
    {
      tx.Send(ClosedEvent);
    }
  }
}
