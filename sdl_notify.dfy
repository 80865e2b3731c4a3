/** `loop` of src/SDL-notify.c as a class whose fields are the loop's state:
    `__interrupt`, `frame`, `oldv`, `newv`, the texture pointer and the
    message, with the window's visibility and the SDL calls as ghost state.
    Every method is proved to do what the matching function of PopupSpec
    describes, so the properties proved there hold of this code. */
module SdlNotify {
  import opened Battery
  import opened FramePacing
  import PopupSpec

  class Popup {
    /** The static state of `get_battery_level`. */
    const reader: BatteryReader
    /** `__interrupt`. */
    var interrupt: bool
    /** Whether `SDL_ShowWindow` or `SDL_HideWindow` came last. */
    ghost var visible: bool
    var frame: int
    var oldv: Level
    var newv: Level
    /** `texture != NULL`. */
    var textureLive: bool
    /** The level `msg` was last formatted from. */
    var msgValue: Level
    /** The SDL calls made so far. */
    ghost var calls: seq<PopupSpec.SdlCall>

    ghost function State(): PopupSpec.Machine
      reads this, reader
    {
      PopupSpec.Machine(reader.energyFull, interrupt, visible, frame, oldv, newv,
                        textureLive, msgValue, calls)
    }

    /** The window has been created hidden, nothing has been drawn yet. */
    constructor (reader: BatteryReader)
      ensures this.reader == reader
      ensures State() == PopupSpec.Initial(reader.energyFull)
    {
      this.reader := reader;
      interrupt := false;
      visible := false;
      frame := 0;
      oldv, newv, msgValue := SENTINEL, SENTINEL, SENTINEL;
      textureLive := false;
      calls := [];
    }

    /** The prologue: first reading, first message, first texture. */
    method Start(fs: Sysfs)
      modifies this, reader
      ensures State() == PopupSpec.Start(old(State()), fs)
    {
      var v := reader.GetBatteryLevel(fs);
      oldv, newv := v, v;
      msgValue := v;
      calls := calls + [PopupSpec.CreateTexture(v)];
      textureLive := true;
      frame := 0;
    }

    /** The outer loop's hidden branch. */
    method HiddenIteration(fs: Sysfs)
      modifies this, reader
      ensures State() == PopupSpec.HiddenIteration(old(State()), fs)
    {
      newv := reader.GetBatteryLevel(fs);
      calls := calls + [PopupSpec.Sleep(PopupSpec.HIDDEN_SLEEP_NS)];
    }

    method ShowWindow()
      modifies this
      ensures State() == PopupSpec.Show(old(State()))
    {
      visible := true;
      calls := calls + [PopupSpec.ShowWindow];
    }

    method HideWindow()
      modifies this
      ensures State() == PopupSpec.Hide(old(State()))
    {
      visible := false;
      calls := calls + [PopupSpec.HideWindow];
    }

    /** One case of the `switch` on `event.type`. */
    method HandleEvent(e: PopupSpec.Event)
      modifies this
      ensures State() == PopupSpec.HandleEvent(old(State()), e)
    {
      match e
      case Quit =>
        interrupt := true;
      case MouseButtonDown =>
        HideWindow();
        calls := calls + [PopupSpec.Sleep(PopupSpec.DISMISS_SLEEP_NS)];
        ShowWindow();
      case OtherEvent =>
    }

    /** `while (SDL_PollEvent(&event))`. */
    method PollEvents(events: seq<PopupSpec.Event>)
      modifies this
      ensures State() == PopupSpec.PollEvents(old(State()), events)
    {
      var i := 0;
      while i < |events|
        invariant 0 <= i <= |events|
        invariant PopupSpec.PollEvents(State(), events[i..]) == PopupSpec.PollEvents(old(State()), events)
      {
        assert events[i..][1..] == events[i + 1..];
        HandleEvent(events[i]);
        i := i + 1;
      }
    }

    /** The `frame >= 120` block. */
    method Resample(fs: Sysfs)
      modifies this, reader
      ensures State() == PopupSpec.Resample(old(State()), fs)
    {
      if frame >= PopupSpec.RESAMPLE_FRAMES {
        newv := reader.GetBatteryLevel(fs);
        if PopupSpec.Changed(newv, oldv) {
          oldv := newv;
          msgValue := newv;
          if textureLive {
            calls := calls + [PopupSpec.DestroyTexture];
          }
          calls := calls + [PopupSpec.CreateTexture(newv)];
          textureLive := true;
        }
        frame := 0;
      }
    }

    /** Sleep for what is left of the frame budget. */
    method Pace(start: TimeSpec, end: TimeSpec)
      modifies this
      ensures State() == PopupSpec.Pace(old(State()), start, end)
    {
      var msec := NsToMsec(ElapsedNs(start, end));
      if msec < MSEC_PER_FRAME {
        var waitNs := (MSEC_PER_FRAME - msec) * NSEC_PER_MSEC;
        calls := calls + [PopupSpec.Sleep(waitNs)];
      }
    }

    /** The body of the inner loop after its band test. */
    method Frame(t: PopupSpec.Tick)
      modifies this, reader
      ensures State() == PopupSpec.Frame(old(State()), t)
    {
      PollEvents(t.events);
      Resample(t.fs);
      calls := calls + [PopupSpec.RenderCopy(msgValue)];
      Pace(t.start, t.end);
      frame := frame + 1;
    }

    /** SIGUSR1 arrives once the environment has no tick left; the handler
        sets `__interrupt`, which the run then stops at. */
    method Signal(exhausted: bool, rest: seq<PopupSpec.Tick>)
      requires exhausted <==> rest == []
      modifies this
      ensures interrupt == (old(interrupt) || exhausted)
      ensures State() == old(State()).(interrupt := interrupt)
      ensures PopupSpec.Run(State(), rest) == PopupSpec.Run(old(State()), rest)
    {
      if exhausted {
        PopupSpec.RunAtSignal(State());
        interrupt := true;
      }
    }

    /** The inner loop: frames until the reading is back in the band (the
        window is then hidden) or `__interrupt` is set. It always runs at
        least one frame, since it is entered with a reading outside the band. */
    method ShownLoop(ticks: seq<PopupSpec.Tick>, from: nat, ghost goal: PopupSpec.Machine) returns (i: nat)
      requires from < |ticks| && !interrupt && visible && !PopupSpec.InBand(newv)
      requires PopupSpec.Run(State(), ticks[from..]) == goal
      modifies this, reader
      ensures from < i <= |ticks|
      ensures !interrupt ==> !visible && i < |ticks|
      ensures PopupSpec.Run(State(), ticks[i..]) == goal
    {
      i := from;
      while !interrupt
        invariant from <= i <= |ticks|
        invariant !interrupt ==> visible && i < |ticks|
        invariant i == from ==> !interrupt && !PopupSpec.InBand(newv)
        invariant PopupSpec.Run(State(), ticks[i..]) == goal
        decreases |ticks| - i
      {
        if PopupSpec.InBand(newv) {
          PopupSpec.RunAfterHide(State(), ticks[i..]);
          HideWindow();
          break;
        }
        i := ShownFrame(ticks, i, goal);
      }
    }

    /** One pass of the inner loop past its band test: a frame on the next
        tick, then SIGUSR1 if that was the last one. */
    method ShownFrame(ticks: seq<PopupSpec.Tick>, i: nat, ghost goal: PopupSpec.Machine) returns (next: nat)
      requires i < |ticks| && !interrupt && visible && !PopupSpec.InBand(newv)
      requires PopupSpec.Run(State(), ticks[i..]) == goal
      modifies this, reader
      ensures next == i + 1 && visible
      ensures !interrupt ==> next < |ticks|
      ensures PopupSpec.Run(State(), ticks[next..]) == goal
    {
      PopupSpec.RunStep(State(), ticks[i..]);
      PopupSpec.FrameKeepsShown(State(), ticks[i]);
      assert ticks[i..][1..] == ticks[i + 1..];
      Frame(ticks[i]);
      Signal(i + 1 == |ticks|, ticks[i + 1..]);
      next := i + 1;
    }

    /** One pass of the outer loop's hidden branch on the next tick, then
        SIGUSR1 if that was the last one. */
    method HiddenPass(ticks: seq<PopupSpec.Tick>, i: nat, ghost goal: PopupSpec.Machine) returns (next: nat)
      requires i < |ticks| && !interrupt && !visible && PopupSpec.InBand(newv)
      requires PopupSpec.Run(State(), ticks[i..]) == goal
      modifies this, reader
      ensures next == i + 1 && !visible
      ensures !interrupt ==> next < |ticks|
      ensures PopupSpec.Run(State(), ticks[next..]) == goal
    {
      PopupSpec.RunStep(State(), ticks[i..]);
      assert ticks[i..][1..] == ticks[i + 1..];
      HiddenIteration(ticks[i].fs);
      Signal(i + 1 == |ticks|, ticks[i + 1..]);
      next := i + 1;
    }

    /** `loop`: both loops run until `__interrupt` is set, by a QUIT event or
        by SIGUSR1 arriving after the last tick; then the texture is freed. */
    method Loop(fs: Sysfs, ticks: seq<PopupSpec.Tick>)
      requires State() == PopupSpec.Initial(reader.energyFull)
      modifies this, reader
      ensures State() == PopupSpec.LoopSpec(old(reader.energyFull), fs, ticks)
    {
      ghost var goal := PopupSpec.Run(PopupSpec.Start(old(State()), fs), ticks);
      Start(fs);
      var i := 0;
      Signal(i == |ticks|, ticks[i..]);
      while !interrupt
        invariant 0 <= i <= |ticks|
        invariant !interrupt ==> !visible && i < |ticks|
        invariant PopupSpec.Run(State(), ticks[i..]) == goal
        decreases |ticks| - i
      {
        if PopupSpec.InBand(newv) {
          i := HiddenPass(ticks, i, goal);
          continue;
        }
        PopupSpec.RunAfterShow(State(), ticks[i..]);
        ShowWindow();
        i := ShownLoop(ticks, i, goal);
      }
      if textureLive {
        calls := calls + [PopupSpec.DestroyTexture];
        textureLive := false;
      }
    }
  }
}
