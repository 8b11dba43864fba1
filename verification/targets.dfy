/** Resolving a numeric capture-target id: monitors are searched first, by
    their display index, then windows, by their window handle truncated to
    32 bits. The enumerations themselves are inputs. */
module Targets {
  import opened Basics

  /** The chosen target, given by its position in the enumeration it came
      from. */
  datatype Target = Monitor(position: nat) | Window(position: nat)

  /** The position of the first occurrence of x in s. */
  function FirstIndexOf<T(==)>(s: seq<T>, x: T): (r: Option<nat>)
    ensures r.Some? ==> r.value < |s| && s[r.value] == x && forall j :: 0 <= j < r.value ==> s[j] != x
    ensures r.None? ==> forall j :: 0 <= j < |s| ==> s[j] != x
  {
    if s == [] then None
    else if s[0] == x then Some(0)
    else match FirstIndexOf(s[1..], x)
      case None => None
      case Some(k) => Some(k + 1)
  }

  /** What each window handle compares as: `as_raw_hwnd() as i32`. */
  function WindowIds(windows: seq<usize>): (ids: seq<i32>)
    ensures |ids| == |windows|
    ensures forall i :: 0 <= i < |windows| ==> ids[i] == UsizeAsI32(windows[i])
  {
    seq(|windows|, i requires 0 <= i < |windows| => UsizeAsI32(windows[i]))
  }

  /** `find_monitor_or_window`: monitors takes the indices of the enumerated
      monitors, windows the raw handles of the enumerated windows. */
  function FindMonitorOrWindow(target: i32, monitors: seq<usize>, windows: seq<usize>): (r: Option<Target>)
    ensures r.Some? && r.value.Monitor? ==>
              var k := r.value.position;
              k < |monitors| && monitors[k] == I32AsUsize(target)
              && forall j :: 0 <= j < k ==> monitors[j] != I32AsUsize(target)
    ensures r.Some? && r.value.Window? ==>
              var k := r.value.position;
              I32AsUsize(target) !in monitors
              && k < |windows| && UsizeAsI32(windows[k]) == target
              && forall j :: 0 <= j < k ==> UsizeAsI32(windows[j]) != target
    ensures r.None? <==> I32AsUsize(target) !in monitors && forall j :: 0 <= j < |windows| ==> UsizeAsI32(windows[j]) != target
  {
    match FirstIndexOf(monitors, I32AsUsize(target))
    case Some(k) => Some(Monitor(k))
    case None =>
      match FirstIndexOf(WindowIds(windows), target)
      case Some(k) => Some(Window(k))
      case None => None
  }

  /** Monitors take priority: when some monitor matches, the windows are
      never consulted, so neither their contents nor their order matter. */
  lemma MonitorMatchIgnoresWindows(target: i32, monitors: seq<usize>, windows: seq<usize>, windows': seq<usize>)
    requires I32AsUsize(target) in monitors
    ensures FindMonitorOrWindow(target, monitors, windows).Some?
    ensures FindMonitorOrWindow(target, monitors, windows).value.Monitor?
    ensures FindMonitorOrWindow(target, monitors, windows) == FindMonitorOrWindow(target, monitors, windows')
  {
  }

  /** A negative id never selects a monitor whose index fits in an i32. */
  lemma NegativeTargetSkipsSmallMonitors(target: i32, monitors: seq<usize>, windows: seq<usize>)
    requires target < 0
    requires forall j :: 0 <= j < |monitors| ==> monitors[j] <= I32_MAX
    ensures FindMonitorOrWindow(target, monitors, windows) == None
         || FindMonitorOrWindow(target, monitors, windows).value.Window?
  {
  }
}
