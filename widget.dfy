/** One mounted `<metronom-bpm>`: the two variables captured by the
    instance closure (`bpm`, `mute`), the timers it armed, the ticks it
    played, its compiled component and the runtime that schedules it. The
    event handlers update the variables, invalidate the context through the
    runtime, and follow the tick state machine step by step. */
module Widget {
  import opened JsValues
  import opened DirtyMask
  import opened Ticker
  import opened Fragment
  import opened Runtime

  class Metronome {
    var bpm: Prim
    var mute: bool
    /** Delays of the timers armed with setTimeout that have not fired yet. */
    var pending: multiset<nat>
    /** Number of `audio.play()` calls. */
    var ticks: nat
    const comp: Component
    const rt: Scheduler

    /** The component's context mirrors the closure's variables, the
        runtime is between flushes, and every stale part of the DOM is
        marked dirty. */
    ghost predicate Valid()
      reads this`bpm, this`mute, rt, comp, rt.components
    {
      rt.Valid() && comp in rt.components && rt.AllConsistent() &&
      |comp.ctx| == 2 && comp.ctx[BPM_SLOT] == bpm && comp.ctx[MUTE_SLOT] == Bool(mute)
    }

    /** The instance viewed as a state of the tick machine. */
    function State(): TickState
      reads this
    {
      TickState(bpm, mute, pending, ticks)
    }

    /** init: the instance starts at 100 bpm, muted, with nothing armed,
        and its freshly created and mounted component joins the runtime
        with a clean mask. The instance registers no before_update or
        after_update callbacks. */
    constructor Mount(runtime: Scheduler)
      requires runtime.Valid() && runtime.AllConsistent()
      modifies runtime`components
      ensures Valid() && State() == Init && rt == runtime
      ensures rt.components == old(runtime.components) + {comp} && fresh(comp)
      ensures comp.dirty == [CLEAN] && comp.Rendered()
      ensures comp.beforeUpdate == [] && comp.afterUpdate == []
    {
      bpm, mute, pending, ticks := Num(DEFAULT_BPM), true, multiset{}, 0;
      var c := new Component(Num(DEFAULT_BPM), Bool(true), [], []);
      comp := c;
      rt := runtime;
      new;
      rt.Register(c);
      forall d | d in rt.components
        ensures d.Consistent()
      {
        if d != c {
          assert old(d.Consistent());
        }
      }
    }

    /** startSounddevice(): while unmuted, arm a timer for
        Math.round(1000 * 60 / bpm) milliseconds. */
    method StartSounddevice()
      requires Valid()
      modifies this`pending
      ensures Valid()
      ensures State() == Start(old(State()))
      ensures !mute ==> TimerDelay(bpm) in pending
      ensures mute ==> pending == old(pending)
    {
      if !mute {
        pending := pending + multiset{TimerDelay(bpm)};
      }
    }

    /** `$$invalidate(1, mute = v)`: assign the closure variable and
        invalidate slot 1 with the same value. Nothing runs between the two
        writes, so the model may invalidate first. */
    method SetMute(v: bool)
      requires Valid()
      modifies this`mute, comp`ctx, comp`dirty, rt`dirtyComponents, rt`updateScheduled
      ensures Valid() && State() == old(State()).(mute := v)
      ensures v != old(mute) ==> comp.dirty == MarkDirty(old(comp.dirty), MUTE_SLOT) && rt.updateScheduled
      ensures v != old(mute) ==>
                rt.dirtyComponents == if old(comp.dirty[0]) == CLEAN then old(rt.dirtyComponents) + [comp] else old(rt.dirtyComponents)
      ensures v == old(mute) ==> comp.dirty == old(comp.dirty) && rt.updateScheduled == old(rt.updateScheduled)
      ensures v == old(mute) ==> rt.dirtyComponents == old(rt.dirtyComponents)
    {
      SafeNotEqualIsChange(Bool(mute), Bool(v));
      assert comp.ctx[MUTE_SLOT] == Bool(mute);
      rt.Invalidate(comp, MUTE_SLOT, Bool(v));
      mute := v;
    }

    /** toggleMute(), the click handler of the icon: flip `mute`,
        invalidate slot 1 (a flip is always a change, so the mask is marked
        and a flush is scheduled), and start the sound device if now
        unmuted. */
    method ToggleMute()
      requires Valid()
      modifies this`mute, this`pending, comp`ctx, comp`dirty, rt`dirtyComponents, rt`updateScheduled
      ensures Valid()
      ensures State() == Step(old(State()), Event.ToggleMute)
      ensures comp.dirty == MarkDirty(old(comp.dirty), MUTE_SLOT) && rt.updateScheduled
      ensures rt.dirtyComponents ==
                if old(comp.dirty[0]) == CLEAN then old(rt.dirtyComponents) + [comp] else old(rt.dirtyComponents)
    {
      ghost var flipped := old(State()).(mute := !mute);
      assert Step(old(State()), Event.ToggleMute) == Start(flipped);
      SetMute(!mute);
      if !mute {
        StartSounddevice();
      }
    }

    /** input_change_input_handler(), bound to the slider's `change` and
        `input` events: `bpm` becomes to_number of the slider's value and
        slot 0 is invalidated. Dragging to the tempo already shown marks
        nothing and schedules nothing. */
    method InputChange(value: string)
      requires Valid()
      modifies this`bpm, comp`ctx, comp`dirty, rt`dirtyComponents, rt`updateScheduled
      ensures Valid()
      ensures State() == Step(old(State()), Event.SetBpm(value))
      ensures old(bpm) != bpm ==>
                comp.dirty == MarkDirty(old(comp.dirty), BPM_SLOT) && rt.updateScheduled &&
                rt.dirtyComponents ==
                  if old(comp.dirty[0]) == CLEAN then old(rt.dirtyComponents) + [comp] else old(rt.dirtyComponents)
      ensures old(bpm) == bpm ==>
                comp.dirty == old(comp.dirty) && rt.updateScheduled == old(rt.updateScheduled) &&
                rt.dirtyComponents == old(rt.dirtyComponents)
    {
      assert Step(old(State()), Event.SetBpm(value)) == old(State()).(bpm := ToNumber(value));
      bpm := ToNumber(value);
      SafeNotEqualIsChange(old(bpm), bpm);
      rt.Invalidate(comp, BPM_SLOT, bpm);
    }

    /** The callback of an armed timer firing: play the tick only if still
        unmuted, then call startSounddevice again, which re-arms only if
        unmuted, with the tempo current now. */
    method Fire(delay: nat)
      requires Valid() && delay in pending
      modifies this`pending, this`ticks
      ensures Valid()
      ensures State() == Step(old(State()), Event.Fire(delay))
    {
      ghost var fired := old(State()).(pending := pending - multiset{delay},
                                       ticks := if mute then ticks else ticks + 1);
      assert Step(old(State()), Event.Fire(delay)) == Start(fired);
      pending := pending - multiset{delay};
      if !mute {
        ticks := ticks + 1;
      }
      assert State() == fired;
      StartSounddevice();
    }

    /** The microtask queued by schedule_update: flush the runtime.
        Afterwards the label and the slider show `bpm`, the icon shows play
        exactly while muted, and nothing is left dirty or scheduled. The
        runtime's effects on every other component sharing it are those of
        Runtime.Scheduler.Flush. */
    method Flush()
      requires Valid()
      modifies rt`flushIdx, rt`current, rt`dirtyComponents, rt`calls, rt`renderCallbacks
      modifies rt`bindingCallbacks, rt`seenCallbacks, rt`flushCallbacks, rt`updateScheduled, rt`flushRenders
      modifies rt.components
      ensures Valid() && State() == old(State())
      ensures comp.labelText == ToJsString(bpm) && comp.sliderValue == SliderText(bpm)
      ensures comp.iconHtml == Play <==> mute
      ensures comp.dirty == [CLEAN] && !rt.updateScheduled && rt.dirtyComponents == []
      ensures rt.bindingCallbacks == [] && rt.renderCallbacks == [] && rt.flushCallbacks == []
      ensures rt.flushIdx == 0 && rt.seenCallbacks == {} && rt.current == old(rt.current)
      ensures rt.components == old(rt.components)
      ensures forall c :: c in rt.components ==> c.ctx == old(c.ctx) && c.dirty == [CLEAN] && c.Rendered()
      ensures rt.calls == old(rt.calls) + BeforeAll(old(rt.dirtyComponents)) + Reverse(old(rt.bindingCallbacks)) +
                          RoundRenders(old(rt.renderCallbacks), old(rt.dirtyComponents), {}) + Reverse(old(rt.flushCallbacks))
      ensures rt.flushRenders == RoundRenders(old(rt.renderCallbacks), old(rt.dirtyComponents), {})
    {
      rt.Flush();
      assert comp.Rendered();
    }
  }
}
