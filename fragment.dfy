/** The compiled Metronom component as the runtime sees it: its context
    (`ctx[0]` is `bpm`, `ctx[1]` is `mute`; slots 2 and 3 hold the two event
    handlers, which are never invalidated and are not represented), its
    dirty mask, its lifecycle callback lists, and the parts of its DOM that
    the patch function `p` rewrites. */
module Fragment {
  import opened JsValues
  import opened DirtyMask

  /** Callbacks are opaque: only their identity matters to the runtime. */
  type CallbackId = nat

  const BPM_SLOT: nat := 0
  const MUTE_SLOT: nat := 1

  /** The two embedded SVG icons. */
  datatype Icon = Play | Pause

  /** `ctx[1] ? icon_play : icon_pause`: the icon shows the action a click
      will take, play while muted. */
  function IconFor(mute: Prim): (i: Icon)
    ensures mute.Bool? ==> (i == Play <==> mute.b)
  {
    if Truthy(mute) then Play else Pause
  }

  /** What set_input_value leaves in the slider: `value == null ? '' : value`
      (`== null` holds for null and undefined). */
  function SliderText(v: Prim): (s: string)
    ensures v.Null? || v.Undefined? ==> s == ""
  {
    if v.Null? || v.Undefined? then "" else ToJsString(v)
  }

  class Component {
    var ctx: seq<Prim>
    /** `$$.dirty`, the mask of stale context slots. */
    var dirty: seq<Word>
    /** `$$.before_update` and `$$.after_update`: the lifecycle callbacks
        the instance registered while `init` ran; fixed from then on. */
    const beforeUpdate: seq<CallbackId>
    const afterUpdate: seq<CallbackId>
    /** Text of the label node t0 (followed by the fixed text " bpm"). */
    var labelText: string
    /** Value of the range input. */
    var sliderValue: string
    /** The fragment's cached `raw_value` and the icon div's innerHTML. */
    var rawValue: Icon
    var iconHtml: Icon

    ghost predicate Wf()
      reads this
    {
      |ctx| == 2 && |dirty| == 1 && WellFormed(dirty) && iconHtml == rawValue
    }

    /** The DOM shows the current value of context slot j. */
    ghost predicate Shows(j: nat)
      reads this
      requires |ctx| == 2
    {
      (j == BPM_SLOT ==> labelText == ToJsString(ctx[BPM_SLOT]) && sliderValue == SliderText(ctx[BPM_SLOT])) &&
      (j == MUTE_SLOT ==> rawValue == IconFor(ctx[MUTE_SLOT]) && iconHtml == rawValue)
    }

    /** The dirty-tracking invariant: every slot whose DOM is stale is marked. */
    ghost predicate Consistent()
      reads this
      requires Wf()
    {
      (IsDirty(dirty, BPM_SLOT) || Shows(BPM_SLOT)) &&
      (IsDirty(dirty, MUTE_SLOT) || Shows(MUTE_SLOT))
    }

    ghost predicate Rendered()
      reads this
      requires |ctx| == 2
    {
      Shows(BPM_SLOT) && Shows(MUTE_SLOT)
    }

    /** The component right after creation and mounting: the fragment's
        `c` and `m` render the initial context, and the mask is `[-1]`. */
    constructor (bpm: Prim, mute: Prim, before: seq<CallbackId>, after: seq<CallbackId>)
      ensures Wf() && Rendered()
      ensures ctx == [bpm, mute] && dirty == [CLEAN]
      ensures beforeUpdate == before && afterUpdate == after
    {
      ctx := [bpm, mute];
      dirty := [CLEAN];
      beforeUpdate, afterUpdate := before, after;
      labelText := ToJsString(bpm);
      sliderValue := SliderText(bpm);
      rawValue := IconFor(mute);
      iconHtml := rawValue;
    }

    /** p(ctx, [dirty]): bit 0 of the first mask word rewrites the label and
        the slider from `bpm`; bit 1 recomputes the icon from `mute` and
        replaces the innerHTML only when the icon actually changes. */
    method Patch(mask: Word)
      requires |ctx| == 2
      modifies this`labelText, this`sliderValue, this`rawValue, this`iconHtml
      ensures mask & 1 != 0 ==> Shows(BPM_SLOT)
      ensures mask & 1 == 0 ==> labelText == old(labelText) && sliderValue == old(sliderValue)
      ensures mask & 2 != 0 ==> rawValue == IconFor(ctx[MUTE_SLOT])
      ensures mask & 2 != 0 ==>
                iconHtml == if old(rawValue) != rawValue then rawValue else old(iconHtml)
      ensures mask & 2 == 0 ==> rawValue == old(rawValue) && iconHtml == old(iconHtml)
    {
      if mask & 1 != 0 {
        var text := ToJsString(ctx[BPM_SLOT]);
        if labelText != text {
          labelText := text;
        }
      }
      if mask & 1 != 0 {
        sliderValue := SliderText(ctx[BPM_SLOT]);
      }
      if mask & 2 != 0 {
        var icon := IconFor(ctx[MUTE_SLOT]);
        if rawValue != icon {
          rawValue := icon;
          iconHtml := rawValue;
        }
      }
    }
  }
}
