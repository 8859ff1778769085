/** The metronome's tick loop as a state machine over values: the two
    captured variables of the widget instance (`bpm`, `mute`), the timers
    armed with setTimeout and not yet fired, and the number of ticks
    played. Time itself is abstract: any pending timer may fire next. */
module Ticker {
  import opened JsValues

  const DEFAULT_BPM: int := 100
  const SLIDER_MIN: int := 40
  const SLIDER_MAX: int := 256

  /** Math.round(1000 * 60 / bpm) for a positive integer bpm. */
  function Delay(bpm: int): nat
    requires bpm > 0
  {
    (120000 + bpm) / (2 * bpm)
  }

  /** Delay(bpm) is the integer nearest to 60000 / bpm, halves rounded up:
      60000 / bpm - 1/2 <= d < 60000 / bpm + 1/2. */
  lemma DelayRounds(bpm: int)
    requires bpm > 0
    ensures var d := Delay(bpm); 2 * bpm * d - bpm <= 120000 < 2 * bpm * d + bpm
  {
  }

  /** Multiplying by a non-negative factor keeps the order. */
  lemma {:induction false} MulLeft(a: nat, x: int, y: int)
    requires x <= y
    ensures a * x <= a * y
    decreases a
  {
    if a > 0 {
      MulLeft(a - 1, x, y);
      assert a * x == (a - 1) * x + x;
      assert a * y == (a - 1) * y + y;
    }
  }

  /** A positive factor can be cancelled from a strict inequality. */
  lemma MulCancel(c: nat, x: int, y: int)
    requires c > 0
    ensures x * c < y * c ==> x < y
  {
    if y <= x {
      MulLeft(c, y, x);
    }
  }

  /** Over the slider's range every delay lies between 234 ms (256 bpm) and
      1500 ms (40 bpm). */
  lemma DelayInSliderRange(bpm: int)
    requires SLIDER_MIN <= bpm <= SLIDER_MAX
    ensures 234 <= Delay(bpm) <= 1500
  {
    var d := Delay(bpm);
    DelayRounds(bpm);
    var k := 2 * d + 1;
    assert 120000 < k * bpm;
    MulLeft(k, bpm, 256);
    assert d >= 234;
    var m := 2 * d - 1;
    assert m * bpm <= 120000;
    MulLeft(m, 40, bpm);
  }

  /** A faster tempo never waits longer between ticks. */
  lemma DelayAntitone(slow: int, fast: int)
    requires 0 < slow <= fast
    ensures Delay(fast) <= Delay(slow)
  {
    var ds, df := Delay(slow), Delay(fast);
    DelayRounds(slow);
    DelayRounds(fast);
    if df >= 1 {
      var hi, lo := 2 * ds + 1, 2 * df - 1;
      assert 120000 < hi * slow;
      assert lo * fast <= 120000;
      MulLeft(lo, slow, fast);
      assert lo * slow < hi * slow;
      MulCancel(slow, lo, hi);
    }
  }

  /** The delay setTimeout waits for `Math.round(1000 * 60 / bpm)` whatever
      `bpm` holds: the timeout is converted to a 32-bit integer (a
      non-finite value, such as 60000 / 0 or NaN, becomes 0) and a negative
      one is raised to 0. */
  function TimerDelay(bpm: Prim): (d: nat)
    ensures bpm.Num? && bpm.n > 0 ==> d == Delay(bpm.n)
    ensures bpm.NaN? || bpm.Null? || bpm.Undefined? || (bpm.Num? && bpm.n <= 0) ==> d == 0
  {
    match bpm
    case Num(n) => if n > 0 then Delay(n) else 0
    case Bool(b) => if b then Delay(1) else 0
    case Str(s) =>
      var v := ToNumber(s);
      if v.Num? && v.n > 0 then Delay(v.n) else 0
    case _ => 0
  }

  datatype TickState = TickState(bpm: Prim, mute: bool, pending: multiset<nat>, ticks: nat)

  /** The three things that can happen to the widget: a click on the icon,
      the slider reporting its value, and a pending timer firing. */
  datatype Event = ToggleMute | SetBpm(value: string) | Fire(delay: nat)

  /** `let bpm = 100; let mute = true;`, nothing armed, nothing played. */
  const Init: TickState := TickState(Num(DEFAULT_BPM), true, multiset{}, 0)

  /** startSounddevice(): while unmuted, arm one timer for the current delay. */
  function Start(s: TickState): (r: TickState)
    ensures r.bpm == s.bpm && r.mute == s.mute && r.ticks == s.ticks
    ensures s.pending <= r.pending
    ensures |r.pending| == |s.pending| + (if s.mute then 0 else 1)
    ensures !s.mute ==> r.pending[TimerDelay(s.bpm)] == s.pending[TimerDelay(s.bpm)] + 1
  {
    if s.mute then s else s.(pending := s.pending + multiset{TimerDelay(s.bpm)})
  }

  /** Only a timer that is pending can fire. */
  predicate Enabled(s: TickState, e: Event)
  {
    e.Fire? ==> e.delay in s.pending
  }

  /** One event. ToggleMute flips `mute` and, if now unmuted, arms a timer;
      SetBpm stores to_number of the slider's value; a firing timer plays
      a tick only if still unmuted and, only then, arms the next timer with
      the tempo current at firing time. No event ever removes a pending timer
      other than the one that fires. */
  function Step(s: TickState, e: Event): (r: TickState)
    requires Enabled(s, e)
    ensures e.ToggleMute? ==> r.mute == !s.mute && r.bpm == s.bpm && r.ticks == s.ticks
    ensures e.ToggleMute? ==> r.pending == s.pending + (if r.mute then multiset{} else multiset{TimerDelay(s.bpm)})
    ensures e.SetBpm? ==> r.bpm == ToNumber(e.value) && r.mute == s.mute && r.pending == s.pending && r.ticks == s.ticks
    ensures e.Fire? ==> r.bpm == s.bpm && r.mute == s.mute
    ensures e.Fire? && s.mute ==> r.ticks == s.ticks && r.pending == s.pending - multiset{e.delay}
    ensures e.Fire? && !s.mute ==>
              r.ticks == s.ticks + 1 &&
              r.pending == s.pending - multiset{e.delay} + multiset{TimerDelay(s.bpm)}
  {
    match e
    case ToggleMute => Start(s.(mute := !s.mute))
    case SetBpm(value) => s.(bpm := ToNumber(value))
    case Fire(t) =>
      var fired := s.(pending := s.pending - multiset{t},
                      ticks := if s.mute then s.ticks else s.ticks + 1);
      Start(fired)
  }

  /** A sequence of events each of which can happen when it comes. */
  predicate Feasible(s: TickState, es: seq<Event>)
    decreases |es|
  {
    es == [] || (Enabled(s, es[0]) && Feasible(Step(s, es[0]), es[1..]))
  }

  function Run(s: TickState, es: seq<Event>): TickState
    requires Feasible(s, es)
    decreases |es|
  {
    if es == [] then s else Run(Step(s, es[0]), es[1..])
  }

  function Toggles(es: seq<Event>): nat
  {
    if es == [] then 0 else (if es[0].ToggleMute? then 1 else 0) + Toggles(es[1..])
  }

  function Fires(es: seq<Event>): nat
  {
    if es == [] then 0 else (if es[0].Fire? then 1 else 0) + Fires(es[1..])
  }

  /** Once muted, and as long as nobody unmutes, no tick is played, no timer
      is armed, and every firing retires one of the timers that were
      pending: the chains die out within one delay each. */
  lemma {:induction false} MutedPlaysNothing(s: TickState, es: seq<Event>)
    requires s.mute && Feasible(s, es) && Toggles(es) == 0
    ensures Run(s, es).mute && Run(s, es).ticks == s.ticks
    ensures Run(s, es).pending <= s.pending
    ensures |Run(s, es).pending| == |s.pending| - Fires(es)
    decreases |es|
  {
    if es != [] {
      MutedPlaysNothing(Step(s, es[0]), es[1..]);
    }
  }

  /** While unmuted, and as long as nobody mutes, every firing plays exactly
      one tick and re-arms exactly one timer: the number of live chains
      stays what it was. */
  lemma {:induction false} UnmutedTicksOncePerFiring(s: TickState, es: seq<Event>)
    requires !s.mute && Feasible(s, es) && Toggles(es) == 0
    ensures !Run(s, es).mute
    ensures Run(s, es).ticks == s.ticks + Fires(es)
    ensures |Run(s, es).pending| == |s.pending|
    decreases |es|
  {
    if es != [] {
      UnmutedTicksOncePerFiring(Step(s, es[0]), es[1..]);
    }
  }

  /** Timers are created only by clicks that unmute (and by firings that
      replace themselves): there are never more chains than there were plus
      the number of clicks. */
  lemma {:induction false} ChainsBoundedByClicks(s: TickState, es: seq<Event>)
    requires Feasible(s, es)
    ensures |Run(s, es).pending| <= |s.pending| + Toggles(es)
    decreases |es|
  {
    if es != [] {
      ChainsBoundedByClicks(Step(s, es[0]), es[1..]);
    }
  }

  /** While unmuted some timer is pending: the loop never stalls. */
  predicate Alive(s: TickState)
  {
    !s.mute ==> |s.pending| >= 1
  }

  /** Every state reachable from the initial one keeps a tick chain alive
      while unmuted. */
  lemma {:induction false} ReachableAlive(s: TickState, es: seq<Event>)
    requires Alive(s) && Feasible(s, es)
    ensures Alive(Run(s, es))
    decreases |es|
  {
    if es != [] {
      var e := es[0];
      var r := Step(s, e);
      if e.Fire? && !s.mute {
        assert e.delay in s.pending;
        assert TimerDelay(s.bpm) in r.pending;
      }
      ReachableAlive(r, es[1..]);
    }
  }

  /** Muting right after unmuting, before the armed timer fires: the firing
      plays nothing and arms nothing, so the chain ends. */
  lemma MutedBeforeFiring(s: TickState)
    requires s.mute
    ensures
      var on := Step(s, ToggleMute);
      var off := Step(on, ToggleMute);
      TimerDelay(s.bpm) in off.pending &&
      var after := Step(off, Fire(TimerDelay(s.bpm)));
      after.ticks == s.ticks && after.pending == s.pending && after.mute
  {
    var on := Step(s, ToggleMute);
    assert on.pending == s.pending + multiset{TimerDelay(s.bpm)};
  }

  /** Clicking three times before anything fires leaves two independent
      chains: nothing bounds the number of chains by one. */
  lemma TwoChainsAfterQuickClicks()
    ensures Feasible(Init, [ToggleMute, ToggleMute, ToggleMute])
    ensures var r := Run(Init, [ToggleMute, ToggleMute, ToggleMute]);
            !r.mute && r.pending == multiset{600, 600}
  {
    assert Delay(100) == 600;
    var es := [ToggleMute, ToggleMute, ToggleMute];
    assert es[1..] == [ToggleMute, ToggleMute];
    assert es[1..][1..] == [ToggleMute];
  }

  /** Unmute at the default tempo, let one tick play, drag the slider to
      200: the timer already armed keeps its 600 ms, and the one it arms
      waits 300 ms. */
  lemma TempoChangeTakesEffectAtNextTick()
    ensures
      var s1 := Step(Init, ToggleMute);
      600 in s1.pending &&
      var s2 := Step(s1, Fire(600));
      s2.ticks == 1 && s2.pending == multiset{600} &&
      var s3 := Step(s2, SetBpm("200"));
      s3.pending == multiset{600} &&
      var s4 := Step(s3, Fire(600));
      s4.ticks == 2 && s4.pending == multiset{300}
  {
    assert Delay(100) == 600;
    assert Delay(200) == 300;
    assert ParseDigits("200") == 200 by {
      assert "200"[..2] == "20";
      assert "20"[..1] == "2";
      assert "2"[..0] == "";
    }
  }
}
