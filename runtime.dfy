/** The bundled component runtime's scheduling state: the module-level
    queues `dirty_components`, `binding_callbacks`, `render_callbacks` and
    `flush_callbacks`, the `seen_callbacks` set, `flushidx`,
    `update_scheduled` and `current_component`, with the operations that
    mark a component dirty and flush the queues. The microtask that
    `schedule_update` queues is the caller's explicit call of Flush. */
module Runtime {
  import opened JsValues
  import opened DirtyMask
  import opened Fragment

  predicate NoDup<T(==)>(s: seq<T>)
  {
    forall i, j :: 0 <= i < j < |s| ==> s[i] != s[j]
  }

  function Elems(s: seq<CallbackId>): set<CallbackId>
  {
    set x | x in s
  }

  /** The callbacks of `queue`, in queue order, that the render phase of
      flush runs when `seen` were already run: each only at its first
      occurrence and only if not seen before. */
  function Dedup(queue: seq<CallbackId>, seen: set<CallbackId>): (r: seq<CallbackId>)
    ensures NoDup(r)
    ensures forall x :: x in r <==> x in queue && x !in seen
    decreases |queue|
  {
    if queue == [] then []
    else
      var prefix, x := queue[..|queue| - 1], queue[|queue| - 1];
      var r := Dedup(prefix, seen);
      if x in seen || x in prefix then r else r + [x]
  }

  /** The order in which a queue drained by repeated `pop()` runs: last
      pushed first. */
  function Reverse(s: seq<CallbackId>): (r: seq<CallbackId>)
    ensures |r| == |s|
    ensures forall k :: 0 <= k < |s| ==> r[k] == s[|s| - 1 - k]
    ensures forall x :: x in r <==> x in s
    decreases |s|
  {
    if s == [] then [] else Reverse(s[1..]) + [s[0]]
  }

  /** The before_update callbacks of `cs`, component after component. */
  ghost function BeforeAll(cs: seq<Component>): seq<CallbackId>
  {
    if cs == [] then [] else BeforeAll(cs[..|cs| - 1]) + cs[|cs| - 1].beforeUpdate
  }

  /** The after_update callbacks of `cs`, component after component. */
  ghost function AfterAll(cs: seq<Component>): seq<CallbackId>
  {
    if cs == [] then [] else AfterAll(cs[..|cs| - 1]) + cs[|cs| - 1].afterUpdate
  }

  /** The render callbacks a flush round runs: the queue `render` after
      the waiting components `queue` have added their after_update
      callbacks, less those in `seen`. */
  ghost function RoundRenders(render: seq<CallbackId>, queue: seq<Component>, seen: set<CallbackId>): (r: seq<CallbackId>)
    ensures NoDup(r) && forall x :: x in r ==> x !in seen
  {
    Dedup(render + AfterAll(queue), seen)
  }

  /** Updating one more component appends its lifecycle callbacks to what
      has run and to what is queued. */
  lemma FoldsGrow(calls: seq<CallbackId>, render: seq<CallbackId>, cs: seq<Component>, c: Component)
    ensures calls + BeforeAll(cs) + c.beforeUpdate == calls + BeforeAll(cs + [c])
    ensures render + AfterAll(cs) + c.afterUpdate == render + AfterAll(cs + [c])
  {
    assert (cs + [c])[..|cs|] == cs;
  }

  /** A slice grows by one element at its end. */
  lemma SliceGrows(s: seq<Component>, a: nat, i: nat)
    requires a <= i < |s|
    ensures s[a..i + 1] == s[a..i] + [s[i]]
  {
  }

  /** Two duplicate-free sequences with no element in common concatenate
      to a duplicate-free sequence. */
  lemma NoDupAppend(a: seq<CallbackId>, b: seq<CallbackId>)
    requires NoDup(a) && NoDup(b)
    requires forall x :: x in a ==> x !in b
    ensures NoDup(a + b)
  {
    forall i, j | 0 <= i < j < |a + b|
      ensures (a + b)[i] != (a + b)[j]
    {
      if i < |a| && j >= |a| {
        assert (a + b)[i] in a && (a + b)[j] in b;
      }
    }
  }

  /** A render phase run after `log` (all of whose callbacks are in `seen`)
      runs none of them again and none twice, and every callback run so far
      is in the new seen set. */
  lemma RenderPhaseRunsEachOnce(log: seq<CallbackId>, queue: seq<CallbackId>, seen: set<CallbackId>)
    requires NoDup(log) && forall x :: x in log ==> x in seen
    ensures NoDup(log + Dedup(queue, seen))
    ensures forall x :: x in log + Dedup(queue, seen) ==> x in seen + Elems(queue)
  {
    NoDupAppend(log, Dedup(queue, seen));
  }

  class Scheduler {
    var dirtyComponents: seq<Component>
    var bindingCallbacks: seq<CallbackId>
    var renderCallbacks: seq<CallbackId>
    var flushCallbacks: seq<CallbackId>
    var seenCallbacks: set<CallbackId>
    var flushIdx: nat
    var updateScheduled: bool
    var current: Component?
    /** Every callback the runtime has invoked, in order. */
    var calls: seq<CallbackId>
    /** The mounted components that share this runtime. */
    ghost var components: set<Component>
    /** The render callbacks run since the current flush began. */
    ghost var flushRenders: seq<CallbackId>

    /** Every component is well formed. */
    ghost predicate ComponentsWf()
      reads this`components, components
    {
      forall c :: c in components ==> c.Wf()
    }

    /** A component waits in `dirty_components` past `flushidx` exactly
        when its mask is not the sentinel, and waits there once. */
    ghost predicate QueueWf()
      reads this`components, this`dirtyComponents, this`flushIdx
      reads components
      requires ComponentsWf()
    {
      flushIdx <= |dirtyComponents| &&
      (forall k :: 0 <= k < |dirtyComponents| ==> dirtyComponents[k] in components) &&
      NoDup(dirtyComponents) &&
      (forall c :: c in components ==> (c in dirtyComponents[flushIdx..] <==> c.dirty[0] != CLEAN))
    }

    /** Structure kept at every point, also inside a flush. */
    ghost predicate Wf()
      reads this`components, this`dirtyComponents, this`flushIdx
      reads components
    {
      ComponentsWf() && QueueWf()
    }

    /** Between flushes: a flush is scheduled exactly when a component
        waits, and the flush bookkeeping is reset. */
    ghost predicate Valid()
      reads this`components, this`dirtyComponents, this`flushIdx, this`seenCallbacks, this`updateScheduled
      reads components
    {
      Wf() && flushIdx == 0 && seenCallbacks == {} &&
      (updateScheduled <==> |dirtyComponents| > 0)
    }

    /** Within a flush no render callback has run twice, and each one that
        ran is in `seen_callbacks`. */
    ghost predicate RendersOnce()
      reads this`flushRenders, this`seenCallbacks
    {
      NoDup(flushRenders) && forall x :: x in flushRenders ==> x in seenCallbacks
    }

    /** Every component's stale DOM is marked in its mask. */
    ghost predicate AllConsistent()
      reads this`components, this`dirtyComponents, this`flushIdx
      reads components
      requires Wf()
    {
      forall c :: c in components ==> c.Consistent()
    }

    constructor ()
      ensures Valid() && components == {}
      ensures dirtyComponents == [] && bindingCallbacks == [] && renderCallbacks == []
      ensures flushCallbacks == [] && calls == [] && !updateScheduled && current == null
    {
      dirtyComponents, bindingCallbacks, renderCallbacks, flushCallbacks := [], [], [], [];
      seenCallbacks, flushIdx, updateScheduled, current, calls := {}, 0, false, null, [];
      components, flushRenders := {}, [];
    }

    /** A freshly mounted component with a clean mask joins the runtime. */
    ghost method Register(c: Component)
      requires Valid() && c.Wf() && c.dirty[0] == CLEAN && c !in components
      modifies this`components
      ensures Valid() && components == old(components) + {c}
    {
      components := components + {c};
    }

    /** schedule_update(): queue one flush unless one is already queued. */
    method ScheduleUpdate() returns (queued: bool)
      modifies this`updateScheduled
      ensures updateScheduled
      ensures queued <==> !old(updateScheduled)
    {
      queued := !updateScheduled;
      if !updateScheduled {
        updateScheduled := true;
      }
    }

    /** make_dirty(component, i): a clean component joins the queue (and a
        flush is scheduled) and has its mask zeroed; then bit i is set. */
    method MakeDirty(c: Component, i: nat) returns (queued: bool)
      requires Valid() && c in components && i / 31 < |c.dirty|
      modifies c`dirty, this`dirtyComponents, this`updateScheduled
      ensures Valid()
      ensures c.dirty == MarkDirty(old(c.dirty), i)
      ensures dirtyComponents ==
                if old(c.dirty[0]) == CLEAN then old(dirtyComponents) + [c] else old(dirtyComponents)
      ensures updateScheduled
      ensures queued <==> old(c.dirty[0]) == CLEAN && !old(updateScheduled)
      ensures forall j: nat :: IsDirty(c.dirty, j) <==> j == i || old(IsDirty(c.dirty, j))
    {
      queued := false;
      if c.dirty[0] == CLEAN {
        dirtyComponents := dirtyComponents + [c];
        queued := ScheduleUpdate();
        c.dirty := Zeros(|c.dirty|);
      }
      c.dirty := SetBit(c.dirty, i / 31, i % 31);
      assert c.dirty == MarkDirty(old(c.dirty), i);
      assert c.Wf();
      assert NoDup(dirtyComponents);
      forall d | d in components
        ensures d in dirtyComponents <==> d.dirty[0] != CLEAN
      {
      }
      forall j: nat
        ensures IsDirty(c.dirty, j) <==> j == i || old(IsDirty(c.dirty, j))
      {
        MarkDirtyMarks(old(c.dirty), i, j);
      }
    }

    /** The `$$invalidate(i, value)` closure of init: the slot is assigned in
        any case, and marked dirty only when safe_not_equal reports a change.
        Re-assigning a slot its own value marks nothing, so the DOM stays
        as up to date as it was. */
    method Invalidate(c: Component, i: nat, value: Prim)
      requires Valid() && c in components && i < |c.ctx|
      modifies c`ctx, c`dirty, this`dirtyComponents, this`updateScheduled
      ensures Valid()
      ensures c.ctx == old(c.ctx)[i := value]
      ensures SafeNotEqual(old(c.ctx[i]), value) ==>
                c.dirty == MarkDirty(old(c.dirty), i) && updateScheduled &&
                dirtyComponents == if old(c.dirty[0]) == CLEAN then old(dirtyComponents) + [c] else old(dirtyComponents)
      ensures !SafeNotEqual(old(c.ctx[i]), value) ==>
                c.dirty == old(c.dirty) && dirtyComponents == old(dirtyComponents) &&
                updateScheduled == old(updateScheduled)
      ensures old(AllConsistent()) ==> AllConsistent()
    {
      var previous := c.ctx[i];
      c.ctx := c.ctx[i := value];
      SafeNotEqualIsChange(previous, value);
      if SafeNotEqual(previous, value) {
        var _ := MakeDirty(c, i);
        if old(AllConsistent()) {
          forall d | d in components
            ensures d.Consistent()
          {
            assert old(d.Consistent());
          }
        }
      } else {
        assert c.ctx == old(c.ctx);
      }
    }

    /** update($$): run before_update, hand the old mask to p, reset the
        mask to the sentinel, queue after_update as render callbacks. A
        component whose stale slots are all marked is fully rendered after. */
    method Update(c: Component)
      requires c.Wf() && c.Consistent()
      modifies c`dirty, c`labelText, c`sliderValue, c`rawValue, c`iconHtml
      modifies this`calls, this`renderCallbacks
      ensures c.dirty == [CLEAN] && c.Wf() && c.Rendered()
      ensures calls == old(calls) + c.beforeUpdate
      ensures renderCallbacks == old(renderCallbacks) + c.afterUpdate
    {
      calls := calls + c.beforeUpdate;
      var mask := c.dirty;
      c.dirty := [CLEAN];
      c.Patch(mask[0]);
      assert mask[0] != CLEAN ==> (IsDirty(mask, BPM_SLOT) <==> mask[0] & 1 != 0);
      assert mask[0] != CLEAN ==> (IsDirty(mask, MUTE_SLOT) <==> mask[0] & 2 != 0);
      renderCallbacks := renderCallbacks + c.afterUpdate;
    }

    /** One pass of the update loop: take the component at `flushidx`,
        advance `flushidx`, make it current and update it. Only that
        component's mask and DOM change. */
    method UpdateNext()
      requires Wf() && AllConsistent() && flushIdx < |dirtyComponents|
      modifies this`flushIdx, this`current, this`calls, this`renderCallbacks
      modifies {dirtyComponents[flushIdx]}`dirty, {dirtyComponents[flushIdx]}`labelText
      modifies {dirtyComponents[flushIdx]}`sliderValue, {dirtyComponents[flushIdx]}`rawValue
      modifies {dirtyComponents[flushIdx]}`iconHtml
      ensures Wf() && AllConsistent()
      ensures flushIdx == old(flushIdx) + 1 && dirtyComponents == old(dirtyComponents)
      ensures components == old(components)
      ensures current == dirtyComponents[old(flushIdx)] && current.dirty == [CLEAN]
      ensures calls == old(calls) + current.beforeUpdate
      ensures renderCallbacks == old(renderCallbacks) + current.afterUpdate
    {
      var c := dirtyComponents[flushIdx];
      flushIdx := flushIdx + 1;
      current := c;
      Update(c);
      forall d | d in components && d != c
        ensures d.Wf() && d.Consistent() && d.dirty[0] == old(d.dirty[0])
      {
        assert old(d.Consistent());
      }
      assert c !in dirtyComponents[flushIdx..];
    }

    /** The update loop of flush: update every waiting component, in queue
        order, from `flushidx` on. Their before_update callbacks run and
        their after_update callbacks are queued, component after component. */
    method UpdateQueued()
      requires Wf() && AllConsistent()
      modifies this`flushIdx, this`current, this`calls, this`renderCallbacks
      modifies components`dirty, components`labelText, components`sliderValue, components`rawValue, components`iconHtml
      ensures Wf() && AllConsistent() && components == old(components)
      ensures dirtyComponents == old(dirtyComponents) && flushIdx == |dirtyComponents|
      ensures forall c :: c in components ==> c.ctx == old(c.ctx)
      ensures calls == old(calls) + BeforeAll(old(dirtyComponents[flushIdx..]))
      ensures renderCallbacks == old(renderCallbacks) + AfterAll(old(dirtyComponents[flushIdx..]))
    {
      ghost var start := flushIdx;
      ghost var done: seq<Component> := [];
      while flushIdx < |dirtyComponents|
        invariant Wf() && AllConsistent() && components == old(components)
        invariant dirtyComponents == old(dirtyComponents) && start <= flushIdx
        invariant done == dirtyComponents[start..flushIdx]
        invariant calls == old(calls) + BeforeAll(done)
        invariant renderCallbacks == old(renderCallbacks) + AfterAll(done)
      {
        var c := dirtyComponents[flushIdx];
        SliceGrows(dirtyComponents, start, flushIdx);
        FoldsGrow(old(calls), old(renderCallbacks), done, c);
        UpdateNext();
        done := done + [c];
      }
      assert done == old(dirtyComponents[flushIdx..]);
    }

    /** The first phase of a flush round: run the update loop, then empty
        the queue. Afterwards every component is clean and shows its
        context. */
    method UpdateDirtyComponents()
      requires Wf() && AllConsistent()
      modifies this`flushIdx, this`current, this`dirtyComponents, this`calls, this`renderCallbacks
      modifies components
      ensures Wf() && AllConsistent() && components == old(components)
      ensures dirtyComponents == [] && flushIdx == 0 && current == null
      ensures forall c :: c in components ==> c.dirty == [CLEAN] && c.Rendered()
      ensures forall c :: c in components ==> c.ctx == old(c.ctx)
      ensures calls == old(calls) + BeforeAll(old(dirtyComponents[flushIdx..]))
      ensures renderCallbacks == old(renderCallbacks) + AfterAll(old(dirtyComponents[flushIdx..]))
    {
      UpdateQueued();
      current := null;
      dirtyComponents := [];
      flushIdx := 0;
      forall c | c in components
        ensures c.dirty == [CLEAN] && c.Rendered()
      {
        assert c.Consistent();
      }
    }

    /** `while (binding_callbacks.length) binding_callbacks.pop()()` */
    method RunBindingCallbacks()
      modifies this`bindingCallbacks, this`calls
      ensures bindingCallbacks == []
      ensures calls == old(calls) + Reverse(old(bindingCallbacks))
    {
      while |bindingCallbacks| > 0
        invariant bindingCallbacks == old(bindingCallbacks)[..|bindingCallbacks|]
        invariant calls == old(calls) + Reverse(old(bindingCallbacks)[|bindingCallbacks|..])
      {
        var n := |bindingCallbacks|;
        var callback := bindingCallbacks[n - 1];
        bindingCallbacks := bindingCallbacks[..n - 1];
        calls := calls + [callback];
        assert old(bindingCallbacks)[n - 1..][1..] == old(bindingCallbacks)[n..];
      }
    }

    /** The render phase: run each queued render callback unless it already
        ran in this flush, then empty the queue. */
    method RunRenderCallbacks()
      modifies this`renderCallbacks, this`seenCallbacks, this`calls
      ensures renderCallbacks == []
      ensures calls == old(calls) + Dedup(old(renderCallbacks), old(seenCallbacks))
      ensures seenCallbacks == old(seenCallbacks) + Elems(old(renderCallbacks))
    {
      var i := 0;
      while i < |renderCallbacks|
        invariant 0 <= i <= |renderCallbacks| && renderCallbacks == old(renderCallbacks)
        invariant calls == old(calls) + Dedup(renderCallbacks[..i], old(seenCallbacks))
        invariant seenCallbacks == old(seenCallbacks) + Elems(renderCallbacks[..i])
      {
        var callback := renderCallbacks[i];
        assert renderCallbacks[..i + 1][..i] == renderCallbacks[..i];
        if callback !in seenCallbacks {
          seenCallbacks := seenCallbacks + {callback};
          calls := calls + [callback];
        }
        i := i + 1;
      }
      assert renderCallbacks[..i] == old(renderCallbacks);
      renderCallbacks := [];
    }

    /** `while (flush_callbacks.length) flush_callbacks.pop()()` */
    method RunFlushCallbacks()
      modifies this`flushCallbacks, this`calls
      ensures flushCallbacks == []
      ensures calls == old(calls) + Reverse(old(flushCallbacks))
    {
      while |flushCallbacks| > 0
        invariant flushCallbacks == old(flushCallbacks)[..|flushCallbacks|]
        invariant calls == old(calls) + Reverse(old(flushCallbacks)[|flushCallbacks|..])
      {
        var n := |flushCallbacks|;
        var callback := flushCallbacks[n - 1];
        flushCallbacks := flushCallbacks[..n - 1];
        calls := calls + [callback];
        assert old(flushCallbacks)[n - 1..][1..] == old(flushCallbacks)[n..];
      }
    }

    /** The second half of a flush round: run the binding callbacks, then
        the render callbacks not seen in this flush, and log the latter. */
    method RenderPhase()
      requires RendersOnce()
      modifies this`bindingCallbacks, this`renderCallbacks, this`seenCallbacks, this`calls, this`flushRenders
      ensures bindingCallbacks == [] && renderCallbacks == []
      ensures calls == old(calls) + Reverse(old(bindingCallbacks)) + Dedup(old(renderCallbacks), old(seenCallbacks))
      ensures flushRenders == old(flushRenders) + Dedup(old(renderCallbacks), old(seenCallbacks))
      ensures seenCallbacks == old(seenCallbacks) + Elems(old(renderCallbacks))
      ensures RendersOnce()
    {
      RunBindingCallbacks();
      RenderPhaseRunsEachOnce(flushRenders, renderCallbacks, seenCallbacks);
      flushRenders := flushRenders + Dedup(renderCallbacks, seenCallbacks);
      RunRenderCallbacks();
    }

    /** One round of the do-while loop of flush: update the dirty
        components, run the binding callbacks, run the render callbacks.
        Callbacks are opaque here and mark nothing dirty, so a round leaves
        no component waiting. */
    method Round()
      requires Wf() && AllConsistent() && flushIdx == 0 && RendersOnce()
      modifies this`flushIdx, this`current, this`dirtyComponents, this`calls, this`renderCallbacks
      modifies this`bindingCallbacks, this`seenCallbacks, this`flushRenders
      modifies components
      ensures Wf() && AllConsistent() && components == old(components) && flushIdx == 0
      ensures dirtyComponents == [] && bindingCallbacks == [] && renderCallbacks == [] && current == null
      ensures forall c :: c in components ==> c.dirty == [CLEAN] && c.Rendered()
      ensures forall c :: c in components ==> c.ctx == old(c.ctx)
      ensures calls == old(calls) + BeforeAll(old(dirtyComponents)) + Reverse(old(bindingCallbacks)) +
                       RoundRenders(old(renderCallbacks), old(dirtyComponents), old(seenCallbacks))
      ensures flushRenders == old(flushRenders) + RoundRenders(old(renderCallbacks), old(dirtyComponents), old(seenCallbacks))
      ensures RendersOnce()
      ensures seenCallbacks == old(seenCallbacks + Elems(renderCallbacks + AfterAll(dirtyComponents)))
    {
      assert dirtyComponents[flushIdx..] == dirtyComponents;
      UpdateDirtyComponents();
      RenderPhase();
    }

    /** The do-while loop of flush: rounds until no component waits. As
        callbacks mark nothing dirty, the first round is the last. The log
        of render callbacks starts empty with the flush. */
    method Rounds()
      requires Wf() && AllConsistent() && flushIdx == 0 && seenCallbacks == {}
      modifies this`flushIdx, this`current, this`dirtyComponents, this`calls, this`renderCallbacks
      modifies this`bindingCallbacks, this`seenCallbacks, this`flushRenders
      modifies components
      ensures Wf() && AllConsistent() && components == old(components) && flushIdx == 0
      ensures dirtyComponents == [] && bindingCallbacks == [] && renderCallbacks == []
      ensures forall c :: c in components ==> c.dirty == [CLEAN] && c.Rendered()
      ensures forall c :: c in components ==> c.ctx == old(c.ctx)
      ensures calls == old(calls) + BeforeAll(old(dirtyComponents)) + Reverse(old(bindingCallbacks)) +
                       RoundRenders(old(renderCallbacks), old(dirtyComponents), {})
      ensures flushRenders == RoundRenders(old(renderCallbacks), old(dirtyComponents), {}) && RendersOnce()
    {
      ghost var queue, binding, render := dirtyComponents, bindingCallbacks, renderCallbacks;
      flushRenders := [];
      var more := true;
      while more
        invariant Wf() && AllConsistent() && components == old(components) && flushIdx == 0
        invariant RendersOnce()
        invariant forall c :: c in components ==> c.ctx == old(c.ctx)
        invariant more ==> calls == old(calls) && flushRenders == [] && seenCallbacks == {} &&
                            dirtyComponents == queue && bindingCallbacks == binding && renderCallbacks == render
        invariant !more ==> dirtyComponents == [] && bindingCallbacks == [] && renderCallbacks == []
        invariant !more ==> forall c :: c in components ==> c.dirty == [CLEAN] && c.Rendered()
        invariant !more ==> calls == old(calls) + BeforeAll(queue) + Reverse(binding) + RoundRenders(render, queue, {})
        invariant !more ==> flushRenders == RoundRenders(render, queue, {})
        decreases more
      {
        Round();
        more := |dirtyComponents| > 0;
      }
    }

    /** flush(): repeat rounds (update the dirty components, run binding and
        render callbacks) while components wait, run the flush callbacks,
        and reset the flush state. Every callback runs in the order the
        runtime promises, no render callback runs twice, every queue is
        empty, no flush is scheduled, and every component is clean and
        shows its context. */
    method Flush()
      requires Valid() && AllConsistent()
      modifies this`flushIdx, this`current, this`dirtyComponents, this`calls, this`renderCallbacks
      modifies this`bindingCallbacks, this`seenCallbacks, this`flushCallbacks, this`updateScheduled
      modifies this`flushRenders
      modifies components
      ensures Valid() && AllConsistent() && components == old(components)
      ensures calls == old(calls) + BeforeAll(old(dirtyComponents)) + Reverse(old(bindingCallbacks)) +
                       RoundRenders(old(renderCallbacks), old(dirtyComponents), {}) + Reverse(old(flushCallbacks))
      ensures flushRenders == RoundRenders(old(renderCallbacks), old(dirtyComponents), {})
      ensures dirtyComponents == [] && bindingCallbacks == [] && renderCallbacks == [] && flushCallbacks == []
      ensures flushIdx == 0 && !updateScheduled && seenCallbacks == {} && current == old(current)
      ensures forall c :: c in components ==> c.dirty == [CLEAN] && c.Rendered()
      ensures forall c :: c in components ==> c.ctx == old(c.ctx)
    {
      var savedComponent := current;
      Rounds();
      RunFlushCallbacks();
      Reset(savedComponent);
    }


    /** The end of flush: no flush is scheduled any more, the seen set is
        cleared and the component current before the flush is restored. */
    method Reset(saved: Component?)
      requires Wf() && AllConsistent() && flushIdx == 0 && dirtyComponents == []
      modifies this`updateScheduled, this`seenCallbacks, this`current
      ensures Valid() && AllConsistent()
      ensures !updateScheduled && seenCallbacks == {} && current == saved
    {
      updateScheduled := false;
      seenCallbacks := {};
      current := saved;
    }
  }
}
