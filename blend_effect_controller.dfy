/** `BlendEffectController<T>`: one output value computed from many inputs.
    Long-lived inputs are channels, each holding a value; short-lived inputs
    are events, each playing a value through an attenuation curve over its
    duration, after a start delay. `Refresh(deltaTime)` folds the channels
    into the channel output with `Blend` (only after a channel changed),
    blends in every event that is running, scales by `outputScale`, and
    reports whether the output may have changed.

    `Blend`, `Scale` and `Equals` are the subclass's; here they are the
    controller's function constants. An attenuation curve is a function from
    progress to weight. `float` is read as `real`. Channels are addressed by
    the ids CreateChannel hands out. */
module BlendEffects {
  import opened Vectors
  import Ranges

  /** A running event: its progress in [0, 1], its value, the delay left
      before it starts, its duration and its attenuation curve. */
  datatype Event<T> = Event(time01: real, value: T, startDelay: real, duration: Duration, attenuation: real -> real)

  /** An event duration: positive, so progress can advance. */
  type Duration = r: real | r > 0.0 witness 1.0

  /** What one update does to an event: the event after it, whether it
      contributed to the output, and whether it stays in the list. */
  datatype Step<T> = Step(event: Event<T>, active: bool, kept: bool)

  /** The weight of an event: its curve at its progress, never below 0. */
  function Weight<T>(e: Event<T>): (w: real)
    ensures w >= 0.0 && w >= e.attenuation(e.time01)
  {
    Ranges.Max(e.attenuation(e.time01), 0.0)
  }

  /** One update of an event by `deltaTime`. A positive delay counts down;
      when it runs out the overshoot is what the clock advances by. An event
      with no delay left advances its progress by dt / duration, and at
      progress 1 or more it contributes once more, at progress exactly 1, and
      leaves the list. */
  function StepEvent<T>(e: Event<T>, deltaTime: real): (s: Step<T>)
    ensures s.event.duration == e.duration && s.event.value == e.value
  {
    var d := e.startDelay - deltaTime;
    var e1 := if e.startDelay > 0.0 then e.(startDelay := if d <= 0.0 then 0.0 else d) else e;
    var dt := if e.startDelay > 0.0 && d <= 0.0 then -d else deltaTime;
    if e1.startDelay == 0.0 then
      var t := e1.time01 + dt / e1.duration;
      if t >= 1.0 then Step(e1.(time01 := 1.0), true, false) else Step(e1.(time01 := t), true, true)
    else
      Step(e1, false, true)
  }

  /** While the delay outlasts the update, the event only counts down and
      does not contribute. */
  lemma StepWaits<T>(e: Event<T>, deltaTime: real)
    requires e.startDelay > 0.0 && e.startDelay - deltaTime > 0.0
    ensures StepEvent(e, deltaTime) == Step(e.(startDelay := e.startDelay - deltaTime), false, true)
  {
  }

  /** The update on which the delay runs out starts the event and advances
      it by the part of the update left over. */
  lemma StepStarts<T>(e: Event<T>, deltaTime: real)
    requires e.startDelay > 0.0 && e.startDelay - deltaTime <= 0.0
    ensures var s := StepEvent(e, deltaTime); var t := e.time01 + (deltaTime - e.startDelay) / e.duration;
      && s.active && s.event.startDelay == 0.0
      && s.event.time01 == (if t >= 1.0 then 1.0 else t)
      && s.kept == (t < 1.0)
  {
  }

  /** A running event advances by deltaTime / duration, and leaves the list
      exactly when that reaches 1. */
  lemma StepRuns<T>(e: Event<T>, deltaTime: real)
    requires e.startDelay == 0.0
    ensures var s := StepEvent(e, deltaTime); var t := e.time01 + deltaTime / e.duration;
      && s.active && s.event.startDelay == 0.0
      && s.event.time01 == (if t >= 1.0 then 1.0 else t)
      && s.kept == (t < 1.0)
  {
  }

  /** An event whose delay is negative never starts: every update leaves it
      as it is, in the list and silent. */
  lemma StepNeverStarts<T>(e: Event<T>, deltaTime: real)
    requires e.startDelay < 0.0
    ensures StepEvent(e, deltaTime) == Step(e, false, true)
  {
  }

  /** An event leaves the list only on an update it contributes to, and then
      it contributes at progress 1; an event that stays and contributes is
      still below 1. */
  lemma StepLeavesAtOne<T>(e: Event<T>, deltaTime: real)
    ensures var s := StepEvent(e, deltaTime);
      && (!s.kept ==> s.active && s.event.time01 == 1.0)
      && (s.kept && s.active ==> s.event.time01 < 1.0)
      && (s.active <==> s.event.startDelay == 0.0)
  {
  }

  /** Whether the event is still in the list after `n` updates of `deltaTime`. */
  function Remains<T>(e: Event<T>, deltaTime: real, n: nat): bool
    decreases n
  {
    n == 0 || (StepEvent(e, deltaTime).kept && Remains(StepEvent(e, deltaTime).event, deltaTime, n - 1))
  }

  /** A running event updated by a positive deltaTime is gone after n updates
      once n steps of deltaTime / duration cover what is left to 1. */
  lemma {:induction false} RunningEventEnds<T>(e: Event<T>, deltaTime: real, n: nat)
    requires e.startDelay == 0.0 && deltaTime > 0.0 && n >= 1
    requires e.time01 + n as real * (deltaTime / e.duration) >= 1.0
    ensures !Remains(e, deltaTime, n)
    decreases n
  {
    var s := StepEvent(e, deltaTime);
    var q := deltaTime / e.duration;
    if s.kept && n > 1 {
      assert s.event.time01 == e.time01 + q && s.event.startDelay == 0.0;
      assert (n - 1) as real * q + q == n as real * q;
      RunningEventEnds(s.event, deltaTime, n - 1);
    }
  }

  /** Every event is on its way: progress at least 0 and below 1. */
  ghost predicate InProgress<T>(es: seq<Event<T>>) {
    forall k :: 0 <= k < |es| ==> 0.0 <= es[k].time01 < 1.0
  }

  /** With time not running backwards, the events left after an update are
      still on their way. */
  lemma {:induction false} SurvivorsInProgress<T>(es: seq<Event<T>>, deltaTime: real)
    requires deltaTime >= 0.0 && InProgress(es)
    ensures InProgress(Survivors(es, deltaTime))
  {
    if es != [] {
      var init := es[..|es| - 1];
      assert InProgress(init) by {
        forall k | 0 <= k < |init| ensures 0.0 <= init[k].time01 < 1.0 {
          assert init[k] == es[k];
        }
      }
      SurvivorsInProgress(init, deltaTime);
      StepInProgress(es[|es| - 1], deltaTime);
    }
  }

  /** One update keeps an event on its way, or removes it. */
  lemma StepInProgress<T>(e: Event<T>, deltaTime: real)
    requires deltaTime >= 0.0 && 0.0 <= e.time01 < 1.0
    ensures var s := StepEvent(e, deltaTime); s.kept ==> 0.0 <= s.event.time01 < 1.0
  {
    if e.startDelay < 0.0 {
      StepNeverStarts(e, deltaTime);
    } else if e.startDelay > 0.0 && e.startDelay - deltaTime > 0.0 {
      StepWaits(e, deltaTime);
    } else if e.startDelay > 0.0 {
      StepStarts(e, deltaTime);
      assert (deltaTime - e.startDelay) / e.duration >= 0.0;
    } else {
      StepRuns(e, deltaTime);
      assert deltaTime / e.duration >= 0.0;
    }
  }

  /** The events left after one update, in their order. */
  function Survivors<T>(es: seq<Event<T>>, deltaTime: real): (r: seq<Event<T>>)
    ensures |r| <= |es|
  {
    if es == [] then []
    else
      var s := StepEvent(es[|es| - 1], deltaTime);
      Survivors(es[..|es| - 1], deltaTime) + (if s.kept then [s.event] else [])
  }

  /** `acc` with every event that is running after one update blended in, in
      list order, each as its value scaled by its weight. */
  function EventsBlended<T>(blend: (T, T) -> T, scale: (T, real) -> T, acc: T, es: seq<Event<T>>, deltaTime: real): T
  {
    if es == [] then acc
    else
      var s := StepEvent(es[|es| - 1], deltaTime);
      var a := EventsBlended(blend, scale, acc, es[..|es| - 1], deltaTime);
      if s.active then blend(a, scale(s.event.value, Weight(s.event))) else a
  }

  /** The events left, and the output, after the first j + 1 events: those
      after the first j, with event j's step added. */
  lemma Unfold<T>(blend: (T, T) -> T, scale: (T, real) -> T, acc: T, es: seq<Event<T>>, j: int, deltaTime: real)
    requires 0 <= j < |es|
    ensures var s := StepEvent(es[j], deltaTime);
      && Survivors(es[..j + 1], deltaTime) == Survivors(es[..j], deltaTime) + (if s.kept then [s.event] else [])
      && EventsBlended(blend, scale, acc, es[..j + 1], deltaTime)
         == if s.active then blend(EventsBlended(blend, scale, acc, es[..j], deltaTime), scale(s.event.value, Weight(s.event)))
            else EventsBlended(blend, scale, acc, es[..j], deltaTime)
  {
    assert es[..j + 1][..j] == es[..j];
  }

  /** Replacing or removing the first element after a prefix. */
  lemma Splice<X>(done: seq<X>, es: seq<X>, j: int, i: int, x: X)
    requires i == |done| && 0 <= j < |es|
    ensures (done + es[j..])[i := x] == done + [x] + es[j + 1..]
    ensures (done + es[j..])[..i] + (done + es[j..])[i + 1..] == done + es[j + 1..]
  {
    assert es[j..] == [es[j]] + es[j + 1..];
  }

  /** One turn of UpdateEvents' loop: with the first j events done, the
      list and output after event j's step are those after the first j + 1. */
  lemma StepNext<T>(blend: (T, T) -> T, scale: (T, real) -> T, acc: T, es: seq<Event<T>>, j: int, deltaTime: real,
                    list: seq<Event<T>>, output: T)
    requires 0 <= j < |es|
    requires list == Survivors(es[..j], deltaTime) + es[j..]
    requires output == EventsBlended(blend, scale, acc, es[..j], deltaTime)
    ensures var i, s := |Survivors(es[..j], deltaTime)|, StepEvent(es[j], deltaTime);
      && i < |list| && list[i] == es[j]
      && (s.kept ==> list[i := s.event] == Survivors(es[..j + 1], deltaTime) + es[j + 1..])
      && (!s.kept ==> list[..i] + list[i + 1..] == Survivors(es[..j + 1], deltaTime) + es[j + 1..])
      && |Survivors(es[..j + 1], deltaTime)| == i + (if s.kept then 1 else 0)
      && EventsBlended(blend, scale, acc, es[..j + 1], deltaTime)
         == if s.active then blend(output, scale(s.event.value, Weight(s.event))) else output
  {
    Unfold(blend, scale, acc, es, j, deltaTime);
    Splice(Survivors(es[..j], deltaTime), es, j, |Survivors(es[..j], deltaTime)|, StepEvent(es[j], deltaTime).event);
  }

  /** `acc` with `vs` blended in from the left. */
  function BlendAll<T>(blend: (T, T) -> T, acc: T, vs: seq<T>): T {
    if vs == [] then acc else blend(BlendAll(blend, acc, vs[..|vs| - 1]), vs[|vs| - 1])
  }

  /** The values at `ids`, in order. */
  function Pick<T>(values: seq<T>, ids: seq<nat>): (r: seq<T>)
    requires forall k :: 0 <= k < |ids| ==> ids[k] < |values|
    ensures |r| == |ids|
  {
    if ids == [] then [] else Pick(values, ids[..|ids| - 1]) + [values[ids[|ids| - 1]]]
  }

  /** List.Remove: `s` without the first occurrence of `x`. */
  function RemoveFirst(s: seq<nat>, x: nat): (r: seq<nat>)
    ensures x in s ==> multiset(r) == multiset(s) - multiset{x}
    ensures x !in s ==> r == s
    ensures forall k :: 0 <= k < |r| ==> r[k] in s
  {
    if s == [] then []
    else if s[0] == x then
      assert s == [s[0]] + s[1..];
      s[1..]
    else
      assert s == [s[0]] + s[1..];
      [s[0]] + RemoveFirst(s[1..], x)
  }

  /** No id is listed twice. */
  ghost predicate Distinct(s: seq<nat>) {
    forall j, k :: 0 <= j < k < |s| ==> s[j] != s[k]
  }

  /** The controller. `attached[id]` says whether channel `id` still has its
      controller, that is, has not been disposed. */
  class BlendEffectController<T> {
    const blend: (T, T) -> T
    const scale: (T, real) -> T
    const equals: (T, T) -> bool
    var baseChannelValue: T
    var outputScale: real
    var channels: seq<nat>
    var channelValues: seq<T>
    var attached: seq<bool>
    var anyChannelChanged: bool
    var channelsOutput: T
    var events: seq<Event<T>>
    var outputChanged: bool
    var finalOutput: T

    /** The list holds exactly the channels not yet disposed, once each; the
        scale is not negative. */
    ghost predicate Valid()
      reads this
    {
      && |channelValues| == |attached|
      && Distinct(channels)
      && (forall k :: 0 <= k < |channels| ==> channels[k] < |attached|)
      && (forall id :: 0 <= id < |attached| ==> (attached[id] <==> id in channels))
      && outputScale >= 0.0
    }

    /** A new controller: no channels, no events, scale 1, and the channel
        output still to be computed. `initial` stands for `default(T)`. */
    constructor (blend: (T, T) -> T, scale: (T, real) -> T, equals: (T, T) -> bool, baseChannelValue: T, initial: T)
      ensures Valid()
      ensures this.blend == blend && this.scale == scale && this.equals == equals
      ensures this.baseChannelValue == baseChannelValue && outputScale == 1.0
      ensures channels == [] && channelValues == [] && attached == [] && events == []
      ensures anyChannelChanged && !outputChanged
      ensures channelsOutput == initial && finalOutput == initial
    {
      this.blend := blend;
      this.scale := scale;
      this.equals := equals;
      this.baseChannelValue := baseChannelValue;
      outputScale := 1.0;
      channels := [];
      channelValues := [];
      attached := [];
      anyChannelChanged := true;
      channelsOutput := initial;
      events := [];
      outputChanged := false;
      finalOutput := initial;
    }

    /** CreateChannel(value): a new channel with that value, last in the
        list; the channel output is to be recomputed. */
    method CreateChannel(value: T) returns (id: nat)
      requires Valid()
      modifies this
      ensures Valid()
      ensures id == old(|channelValues|)
      ensures channelValues == old(channelValues) + [value] && attached == old(attached) + [true]
      ensures channels == old(channels) + [id] && anyChannelChanged
      ensures baseChannelValue == old(baseChannelValue) && outputScale == old(outputScale)
      ensures events == old(events) && outputChanged == old(outputChanged)
      ensures channelsOutput == old(channelsOutput) && finalOutput == old(finalOutput)
    {
      id := |channelValues|;
      channelValues := channelValues + [value];
      attached := attached + [true];
      channels := channels + [id];
      anyChannelChanged := true;
    }

    /** Channel.value = v: a disposed channel, or a value `equals` calls the
        same, changes nothing; otherwise the value is stored and the channel
        output is to be recomputed. */
    method SetChannelValue(id: nat, value: T)
      requires Valid() && id < |channelValues|
      modifies this
      ensures Valid()
      ensures if old(attached[id]) && !equals(old(channelValues[id]), value)
              then channelValues == old(channelValues[id := value]) && anyChannelChanged
                   && channels == old(channels) && attached == old(attached)
                   && baseChannelValue == old(baseChannelValue) && outputScale == old(outputScale)
                   && events == old(events) && outputChanged == old(outputChanged)
                   && channelsOutput == old(channelsOutput) && finalOutput == old(finalOutput)
              else unchanged(this)
    {
      if attached[id] && !equals(channelValues[id], value) {
        channelValues := channelValues[id := value];
        anyChannelChanged := true;
      }
    }

    /** Channel.Dispose(): the first time, the channel leaves the list, the
        channel output is to be recomputed and the channel loses its
        controller; after that it changes nothing. */
    method Dispose(id: nat)
      requires Valid() && id < |channelValues|
      modifies this
      ensures Valid()
      ensures id < |attached| && !attached[id] && id !in channels
      ensures if old(attached[id])
              then channels == RemoveFirst(old(channels), id) && attached == old(attached[id := false])
                   && multiset(channels) == multiset(old(channels)) - multiset{id}
                   && anyChannelChanged && channelValues == old(channelValues)
                   && baseChannelValue == old(baseChannelValue) && outputScale == old(outputScale)
                   && events == old(events) && outputChanged == old(outputChanged)
                   && channelsOutput == old(channelsOutput) && finalOutput == old(finalOutput)
              else unchanged(this)
    {
      if attached[id] {
        ghost var before := channels;
        channels := RemoveFirst(channels, id);
        anyChannelChanged := true;
        attached := attached[id := false];
        DisposeKeepsValid(before, id);
      }
    }

    /** What Dispose needs: the list still holds each remaining id once, and
        only those. */
    lemma DisposeKeepsValid(before: seq<nat>, id: nat)
      requires Distinct(before) && id in before && channels == RemoveFirst(before, id)
      ensures Distinct(channels) && id !in channels
      ensures forall x :: x in channels <==> x in before && x != id
    {
      RemoveFirstOfDistinct(before, id);
    }

    /** baseChannelValue = v: stored, and the channel output to be
        recomputed, only when `equals` calls it different. */
    method SetBaseChannelValue(value: T)
      requires Valid()
      modifies this
      ensures Valid()
      ensures if !equals(old(baseChannelValue), value)
              then baseChannelValue == value && anyChannelChanged
                   && channels == old(channels) && channelValues == old(channelValues) && attached == old(attached)
                   && outputScale == old(outputScale) && events == old(events) && outputChanged == old(outputChanged)
                   && channelsOutput == old(channelsOutput) && finalOutput == old(finalOutput)
              else unchanged(this)
    {
      if !equals(baseChannelValue, value) {
        baseChannelValue := value;
        anyChannelChanged := true;
      }
    }

    /** outputScale = v: a negative v is taken as 0; the output is marked
        changed only when the scale differs. */
    method SetOutputScale(value: real)
      requires Valid()
      modifies this
      ensures Valid() && outputScale >= 0.0
      ensures outputScale == Ranges.Max(value, 0.0)
      ensures if old(outputScale) != Ranges.Max(value, 0.0)
              then outputChanged
                   && baseChannelValue == old(baseChannelValue) && anyChannelChanged == old(anyChannelChanged)
                   && channels == old(channels) && channelValues == old(channelValues) && attached == old(attached)
                   && events == old(events) && channelsOutput == old(channelsOutput) && finalOutput == old(finalOutput)
              else unchanged(this)
    {
      var v := Ranges.Max(value, 0.0);
      if outputScale != v {
        outputScale := v;
        outputChanged := true;
      }
    }

    /** CreateEvent: a new event at progress 0, last in the list. */
    method CreateEvent(startDelay: real, duration: Duration, value: T, attenuation: real -> real)
      requires Valid()
      modifies this
      ensures Valid()
      ensures events == old(events) + [Event(0.0, value, startDelay, duration, attenuation)]
      ensures baseChannelValue == old(baseChannelValue) && outputScale == old(outputScale)
      ensures channels == old(channels) && channelValues == old(channelValues) && attached == old(attached)
      ensures anyChannelChanged == old(anyChannelChanged) && outputChanged == old(outputChanged)
      ensures channelsOutput == old(channelsOutput) && finalOutput == old(finalOutput)
    {
      events := events + [Event(0.0, value, startDelay, duration, attenuation)];
    }

    /** The body of UpdateEvents' loop for one event: the delay counts down,
        and once it is used up the event advances, by the overshoot on the
        update its delay runs out. */
    static method AdvanceEvent(e0: Event<T>, deltaTime: real) returns (e: Event<T>, active: bool, kept: bool)
      ensures Step(e, active, kept) == StepEvent(e0, deltaTime)
    {
      e := e0;
      var dt := deltaTime;
      if e.startDelay > 0.0 {
        e := e.(startDelay := e.startDelay - deltaTime);
        if e.startDelay <= 0.0 {
          dt := -e.startDelay;
          e := e.(startDelay := 0.0);
        }
      }
      active, kept := false, true;
      if e.startDelay == 0.0 {
        e := e.(time01 := e.time01 + dt / e.duration);
        active := true;
        if e.time01 >= 1.0 {
          e := e.(time01 := 1.0);
          kept := false;
        }
      }
    }

    /** UpdateEvents' loop: steps the events in list order, removing each
        that reaches progress 1, and blends every running one into `acc`. */
    static method StepAll(blend: (T, T) -> T, scale: (T, real) -> T, acc: T, es: seq<Event<T>>, deltaTime: real)
      returns (list: seq<Event<T>>, output: T)
      ensures list == Survivors(es, deltaTime)
      ensures output == EventsBlended(blend, scale, acc, es, deltaTime)
    {
      ghost var j := 0;
      list := es;
      output := acc;
      var i := 0;
      while i < |list|
        invariant 0 <= j <= |es|
        invariant list == Survivors(es[..j], deltaTime) + es[j..]
        invariant i == |Survivors(es[..j], deltaTime)|
        invariant output == EventsBlended(blend, scale, acc, es[..j], deltaTime)
        decreases |es| - j
      {
        var e, active, kept := AdvanceEvent(list[i], deltaTime);
        StepNext(blend, scale, acc, es, j, deltaTime, list, output);
        if kept {
          list := list[i := e];
        } else {
          list := list[..i] + list[i + 1..];
          i := i - 1;
        }
        if active {
          output := blend(output, scale(e.value, Weight(e)));
        }
        i := i + 1;
        j := j + 1;
      }
      assert es[..j] == es;
    }

    /** UpdateEvents(deltaTime): steps every event in list order, removing
        each that reaches progress 1, and blends every running one into the
        output. */
    method UpdateEvents(deltaTime: real)
      modifies this`events, this`finalOutput
      ensures events == Survivors(old(events), deltaTime)
      ensures finalOutput == EventsBlended(blend, scale, old(finalOutput), old(events), deltaTime)
      ensures baseChannelValue == old(baseChannelValue) && outputScale == old(outputScale)
      ensures channels == old(channels) && channelValues == old(channelValues) && attached == old(attached)
      ensures anyChannelChanged == old(anyChannelChanged) && outputChanged == old(outputChanged)
      ensures channelsOutput == old(channelsOutput)
    {
      var list, output := StepAll(blend, scale, finalOutput, events, deltaTime);
      events := list;
      finalOutput := output;
    }

    /** Refresh's loop over the channel list: the base value with each
        listed channel's value blended in, in list order. */
    static method BlendChannels(blend: (T, T) -> T, base: T, values: seq<T>, ids: seq<nat>) returns (output: T)
      requires forall k :: 0 <= k < |ids| ==> ids[k] < |values|
      ensures output == BlendAll(blend, base, Pick(values, ids))
    {
      output := base;
      var i := 0;
      while i < |ids|
        invariant 0 <= i <= |ids|
        invariant output == BlendAll(blend, base, Pick(values, ids[..i]))
      {
        assert ids[..i + 1][..i] == ids[..i];
        output := blend(output, values[ids[i]]);
        i := i + 1;
      }
      assert ids[..i] == ids;
    }

    /** Refresh(deltaTime). After a channel change the channel output is
        recomputed, as the base value with every listed channel blended in,
        in creation order. When anything may have changed (channels, scale, or
        events pending) the output is recomputed from the channel output and
        the events, scaled, and the result is true; while events were
        pending the output stays marked changed, so the refresh after the
        last event ends is true as well. Otherwise nothing changes and the
        result is false. */
    method Refresh(deltaTime: real) returns (changed: bool)
      requires Valid()
      modifies this
      ensures Valid() && !anyChannelChanged
      ensures changed == (old(anyChannelChanged) || old(outputChanged) || old(|events|) > 0)
      ensures channelsOutput == if old(anyChannelChanged)
                                then BlendAll(blend, baseChannelValue, Pick(channelValues, channels))
                                else old(channelsOutput)
      ensures changed ==> finalOutput == scale(EventsBlended(blend, scale, channelsOutput, old(events), deltaTime), outputScale)
      ensures changed ==> events == Survivors(old(events), deltaTime) && outputChanged == (old(|events|) > 0)
      ensures !changed ==> finalOutput == old(finalOutput) && events == old(events) && !outputChanged
      ensures baseChannelValue == old(baseChannelValue) && outputScale == old(outputScale)
      ensures channels == old(channels) && channelValues == old(channelValues) && attached == old(attached)
    {
      RefreshChannels();
      changed := RefreshOutput(deltaTime);
    }

    /** The first step of Refresh: recompute the channel output when a
        channel changed, which marks the output changed. */
    method RefreshChannels()
      requires Valid()
      modifies this`anyChannelChanged, this`channelsOutput, this`outputChanged
      ensures !anyChannelChanged && outputChanged == (old(outputChanged) || old(anyChannelChanged))
      ensures channelsOutput == if old(anyChannelChanged)
                                then BlendAll(blend, baseChannelValue, Pick(channelValues, channels))
                                else old(channelsOutput)
    {
      if anyChannelChanged {
        anyChannelChanged := false;
        channelsOutput := BlendChannels(blend, baseChannelValue, channelValues, channels);
        outputChanged := true;
      }
    }

    /** The second step of Refresh: with the output marked changed or events
        pending, blend the events into the channel output, step them, scale
        the result and report true. */
    method RefreshOutput(deltaTime: real) returns (changed: bool)
      modifies this`outputChanged, this`finalOutput, this`events
      ensures changed == (old(outputChanged) || old(|events|) > 0)
      ensures changed ==> finalOutput == scale(EventsBlended(blend, scale, channelsOutput, old(events), deltaTime), outputScale)
      ensures changed ==> events == Survivors(old(events), deltaTime) && outputChanged == (old(|events|) > 0)
      ensures !changed ==> finalOutput == old(finalOutput) && events == old(events) && !outputChanged
    {
      if outputChanged || |events| > 0 {
        outputChanged := false;
        finalOutput := channelsOutput;
        if |events| > 0 {
          UpdateEvents(deltaTime);
          outputChanged := true;
        } else {
          assert Survivors(events, deltaTime) == events;
        }
        finalOutput := scale(finalOutput, outputScale);
        return true;
      }
      return false;
    }
  }

  /** Removing an id from a list without repeats leaves every other id, once
      each, and not that one. */
  lemma {:induction false} RemoveFirstOfDistinct(s: seq<nat>, x: nat)
    requires Distinct(s) && x in s
    ensures Distinct(RemoveFirst(s, x)) && x !in RemoveFirst(s, x)
    ensures forall y :: y in RemoveFirst(s, x) <==> y in s && y != x
  {
    assert s == [s[0]] + s[1..];
    assert Distinct(s[1..]);
    if s[0] != x {
      var r := RemoveFirst(s[1..], x);
      RemoveFirstOfDistinct(s[1..], x);
      assert s[0] !in s[1..];
      DistinctCons(s[0], r);
      assert RemoveFirst(s, x) == [s[0]] + r;
    } else {
      assert x !in s[1..];
    }
  }

  /** An id not in a list without repeats can go in front of it. */
  lemma DistinctCons(a: nat, r: seq<nat>)
    requires Distinct(r) && a !in r
    ensures Distinct([a] + r)
    ensures forall y :: y in [a] + r <==> y == a || y in r
  {
    assert forall k :: 0 < k <= |r| ==> ([a] + r)[k] == r[k - 1];
  }
}
