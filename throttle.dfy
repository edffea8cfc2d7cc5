/** The connect admission counter: a halt window of five seconds and the
    number of connects still admitted without a pause before it runs out.
    The service keeps these as two pieces of process-wide state; `Admit` is
    the step one connect takes on them. */
module Throttle {
  import opened Models

  /** Length of one halt window, in seconds. */
  const WindowSeconds := 5
  /** Connects admitted per window before one is asked to pause. */
  const ConnectsPerWindow := 5
  /** The pause handed to a connect that finds the counter exhausted. */
  const HaltSeconds := 5

  /** The counter state: when the current window ends (None before the
      first connect) and how many connects it still admits. */
  datatype Halt = Halt(nextHaltTime: Option<int>, leftBeforeHalt: int)

  /** The state after one connect and the pause that connect is told to take. */
  datatype Admission = Admission(halt: Halt, sleepDuration: int)

  /** The state a process starts with. */
  const Initial := Halt(None, ConnectsPerWindow)

  /** A connect at `now` opens a new window: there is none yet, or the
      current one ended strictly before `now`. */
  predicate Opens(h: Halt, now: int) {
    h.nextHaltTime.None? || h.nextHaltTime.value < now
  }

  /** One connect at second `now`. */
  function Admit(h: Halt, now: int): (a: Admission)
    ensures a.sleepDuration == 0 || a.sleepDuration == HaltSeconds
    ensures a.sleepDuration == HaltSeconds <==> !Opens(h, now) && h.leftBeforeHalt <= 0
    ensures Opens(h, now) ==> a.halt == Halt(Some(now + WindowSeconds), ConnectsPerWindow - 1)
    ensures !Opens(h, now) ==> a.halt.nextHaltTime == h.nextHaltTime
    ensures !Opens(h, now) && h.leftBeforeHalt <= 0 ==> a.halt.leftBeforeHalt == ConnectsPerWindow - 1
    ensures !Opens(h, now) && h.leftBeforeHalt > 0 ==> a.halt.leftBeforeHalt == h.leftBeforeHalt - 1
    ensures a.halt.nextHaltTime.Some? && now <= a.halt.nextHaltTime.value
    ensures 0 <= a.halt.leftBeforeHalt
    ensures h.leftBeforeHalt <= ConnectsPerWindow ==> a.halt.leftBeforeHalt <= ConnectsPerWindow - 1
  {
    var current := if Opens(h, now) then Halt(Some(now + WindowSeconds), ConnectsPerWindow) else h;
    if current.leftBeforeHalt <= 0 then
      Admission(current.(leftBeforeHalt := ConnectsPerWindow - 1), HaltSeconds)
    else
      Admission(current.(leftBeforeHalt := current.leftBeforeHalt - 1), 0)
  }

  /** The pauses handed to a series of connects at the given seconds. */
  function Run(h: Halt, times: seq<int>): (sleeps: seq<int>)
    ensures |sleeps| == |times|
    decreases |times|
  {
    if times == [] then []
    else
      var a := Admit(h, times[0]);
      [a.sleepDuration] + Run(a.halt, times[1..])
  }

  /** Inside a window that does not end before any of the connects, the
      counter cycles: a connect pauses exactly when it finds the counter at
      zero, which happens every fifth connect. */
  lemma {:induction false} RunInsideWindow(end: int, left: int, times: seq<int>)
    requires 0 <= left < ConnectsPerWindow
    requires forall i :: 0 <= i < |times| ==> times[i] <= end
    ensures forall k :: 0 <= k < |times| ==>
      Run(Halt(Some(end), left), times)[k] == if (left - k) % ConnectsPerWindow == 0 then HaltSeconds else 0
    decreases |times|
  {
    if times != [] {
      var h := Halt(Some(end), left);
      var left' := (left - 1) % ConnectsPerWindow;
      assert Admit(h, times[0]).halt == Halt(Some(end), left');
      assert forall i :: 0 <= i < |times[1..]| ==> times[1..][i] <= end by {
        forall i | 0 <= i < |times[1..]| ensures times[1..][i] <= end {
          assert times[1..][i] == times[i + 1];
        }
      }
      RunInsideWindow(end, left', times[1..]);
      forall k | 0 <= k < |times|
        ensures Run(h, times)[k] == if (left - k) % ConnectsPerWindow == 0 then HaltSeconds else 0
      {
        if k > 0 {
          assert Run(h, times)[k] == Run(Halt(Some(end), left'), times[1..])[k - 1];
          assert (left' - (k - 1)) % ConnectsPerWindow == (left - k) % ConnectsPerWindow;
        }
      }
    }
  }

  /** Five connects go ahead per window: of the connects falling into one
      window, counted from 0 at the one that opened it, the first five go
      ahead at once, and the sixth and every fifth one after it are told to
      pause. There is no bound on how many connects the window admits. */
  lemma FiveConnectsPerWindow(h: Halt, times: seq<int>)
    requires |times| > 0 && Opens(h, times[0])
    requires forall i :: 0 <= i < |times| ==> times[i] <= times[0] + WindowSeconds
    ensures forall k :: 0 <= k < |times| ==>
      Run(h, times)[k] == if k > 0 && k % ConnectsPerWindow == 0 then HaltSeconds else 0
  {
    var end := times[0] + WindowSeconds;
    var rest := times[1..];
    assert Admit(h, times[0]) == Admission(Halt(Some(end), ConnectsPerWindow - 1), 0);
    assert forall i :: 0 <= i < |rest| ==> rest[i] <= end by {
      forall i | 0 <= i < |rest| ensures rest[i] <= end {
        assert rest[i] == times[i + 1];
      }
    }
    RunInsideWindow(end, ConnectsPerWindow - 1, rest);
    forall k | 0 < k < |times|
      ensures Run(h, times)[k] == if k % ConnectsPerWindow == 0 then HaltSeconds else 0
    {
      assert Run(h, times)[k] == Run(Halt(Some(end), ConnectsPerWindow - 1), rest)[k - 1];
      assert (ConnectsPerWindow - 1 - (k - 1)) % ConnectsPerWindow == 0 <==> k % ConnectsPerWindow == 0;
    }
  }
}
