/** The resources page: a stream of records widens the range of resource
    snapshots (`min` to `max`); once both ends are known a range selector
    is built, and its buttons, or tailing, pick the snapshot shown.  The
    ordinals are integers; a record without `min` or `max` carries 0
    there, which counts as absent. */
module Resources {
  import Js

  /** A streamed record: its `complete`, `max` and `min` fields and the
      ordinal of the snapshot it carries (`data.ord`), if any. */
  datatype Item = Item(complete: Js.Value, max: int, min: int, data: Js.Option<Js.Value>)

  /** What `render_resource` does for a picked index: reuse the snapshot
      that came with the record, or fetch `data_uri/idx`. */
  datatype Render = Reused(idx: int) | Fetched(idx: int)

  /** `render_resource(idx, data)`: the snapshot is reused exactly when it
      is there and its `ord` equals the index. */
  function RenderOf(idx: int, data: Js.Option<Js.Value>): (r: Render)
    ensures r.idx == idx
  {
    if data.Some? && Js.LooseEqualsNumber(data.value, idx) then Reused(idx) else Fetched(idx)
  }

  // -----------------------------------------------------------------------
  // The range input (`<input type="range">`, step 1): the value it holds

  /** The values a range input with these ends can hold: from the minimum
      up to the maximum, or anything from the minimum up when the maximum
      is below it (the maximum is then not enforced). */
  predicate InRange(v: int, lo: int, hi: int) {
    lo <= v && (lo <= hi ==> v <= hi)
  }

  function Dist(a: int, b: int): nat {
    if a < b then b - a else a - b
  }

  /** The value an input created with `min` and `max` and no `value`
      shows: the midpoint, rounded up to a whole step when it falls
      between two, or the minimum when the maximum is below it. */
  function DefaultValue(lo: int, hi: int): (r: int)
    ensures InRange(r, lo, hi)
    ensures lo <= hi ==> 2 * r == lo + hi || 2 * r == lo + hi + 1
    ensures hi < lo ==> r == lo
  {
    if hi < lo then lo else lo + (hi - lo + 1) / 2
  }

  /** The value the input holds once `v` is written to it or its ends
      change: a value below the minimum becomes the minimum, one above the
      maximum the maximum (unless the maximum is below the minimum). */
  function Sanitize(v: int, lo: int, hi: int): (r: int)
    ensures InRange(r, lo, hi)
    ensures InRange(v, lo, hi) ==> r == v
    ensures lo <= hi ==> forall w :: InRange(w, lo, hi) ==> Dist(r, v) <= Dist(w, v)
  {
    if v < lo then lo else if lo <= hi && v > hi then hi else v
  }

  class Page {
    var min: Js.Option<int>       // state.min, null at first
    var max: Js.Option<int>       // state.max
    var complete: bool
    var tailing: bool
    var selected: Js.Option<int>  // state.selected
    var built: bool               // state.rendered and state.range are set
    var slider: int               // the value the range input holds
    var sliderMin: int            // the range input's min attribute
    var sliderMax: int            // its max attribute
    var timedOut: bool            // the timeout notice is shown
    var renders: seq<Render>      // render_resource calls, in order

    /** Only a truthy ordinal is ever stored, the selector exists only
        once both ends are known, and the input holds a value its ends
        allow. */
    predicate Stored()
      reads this
    {
      (built ==> min.Some? && max.Some? && InRange(slider, sliderMin, sliderMax))
      && (min.Some? ==> min.value != 0) && (max.Some? ==> max.value != 0)
    }

    /** Between records: the selector is built exactly when both ends are
        known, and its ends are the state's. */
    predicate Valid()
      reads this
    {
      Stored()
      && (built <==> min.Some? && max.Some?)
      && (built ==> sliderMin == min.value && sliderMax == max.value)
    }

    /** The page's initial state; `tailing` and `selected` come from the
        page's globals. */
    constructor (tail: bool, sel: Js.Option<int>)
      ensures Valid() && min == Js.None && max == Js.None && !complete && !built && !timedOut
      ensures tailing == tail && selected == sel && renders == []
    {
      min, max, complete := Js.None, Js.None, false;
      tailing, selected := tail, sel;
      built := false;
      slider, sliderMin, sliderMax := 0, 0, 0;
      timedOut := false;
      renders := [];
    }

    /** `state.pick_range(idx, data)`: the input is set to `idx` (and keeps
        the nearest value it allows), the index itself is selected and
        rendered. */
    method PickRange(idx: int, data: Js.Option<Js.Value>)
      modifies this
      ensures slider == Sanitize(idx, sliderMin, sliderMax)
      ensures selected == Js.Some(idx) && renders == old(renders) + [RenderOf(idx, data)]
      ensures min == old(min) && max == old(max) && complete == old(complete) && tailing == old(tailing)
      ensures built == old(built) && sliderMin == old(sliderMin) && sliderMax == old(sliderMax)
      ensures timedOut == old(timedOut)
    {
      slider := Sanitize(idx, sliderMin, sliderMax);
      selected := Js.Some(idx);
      renders := renders + [RenderOf(idx, data)];
    }

    /** `redraw_resources(state, data)`: nothing until both ends are
        known; the selector is built once, its input showing its default
        value; its `min` and then its `max` attribute follow the state,
        each change pulling the value back into range; while tailing the
        maximum is picked again on every call, since `range.selected` is
        never assigned. */
    method Redraw(data: Js.Option<Js.Value>)
      requires Stored()
      modifies this
      ensures Valid()
      ensures min == old(min) && max == old(max) && complete == old(complete) && tailing == old(tailing)
      ensures timedOut == old(timedOut)
      ensures old(min).None? || old(max).None? ==>
                built == old(built) && renders == old(renders) && slider == old(slider) && selected == old(selected)
      ensures old(min).Some? && old(max).Some? ==> built
      ensures old(min).Some? && old(max).Some? && tailing ==>
                renders == old(renders) + [RenderOf(max.value, data)] && selected == max
                && slider == Sanitize(max.value, min.value, max.value)
      ensures !tailing ==> renders == old(renders) && selected == old(selected)
      ensures old(min).Some? && old(max).Some? && !tailing && !old(built) ==>
                slider == DefaultValue(min.value, max.value)
      ensures old(built) && !tailing ==>
                slider == Sanitize(Sanitize(old(slider), min.value, old(sliderMax)), min.value, max.value)
    {
      if min.None? || max.None? {
        return;
      }
      if !built {
        built := true;
        sliderMin, sliderMax := min.value, max.value;
        slider := DefaultValue(sliderMin, sliderMax);
      }
      sliderMin := min.value;
      slider := Sanitize(slider, sliderMin, sliderMax);
      sliderMax := max.value;
      slider := Sanitize(slider, sliderMin, sliderMax);
      if tailing {
        PickRange(max.value, data);
      }
    }

    /** The stream callback for one record. */
    method Ingest(item: Js.Option<Item>)
      requires Valid()
      modifies this
      ensures Valid()
      ensures item.None? ==> min == old(min) && max == old(max) && complete == old(complete) && renders == old(renders)
      ensures item.Some? ==> complete == (old(complete) || Js.Truthy(item.value.complete))
      ensures item.Some? ==> max == if item.value.max != 0 then Js.Some(item.value.max) else old(max)
      ensures item.Some? ==> min == if item.value.min != 0 then Js.Some(item.value.min) else old(min)
      ensures item.Some? && built && tailing ==>
                renders == old(renders) + [RenderOf(max.value, item.value.data)]
                && slider == Sanitize(max.value, min.value, max.value)
      ensures !tailing ==> renders == old(renders)
      ensures !old(built) && built && !tailing ==> slider == DefaultValue(min.value, max.value)
      ensures old(built) ==> built
      ensures tailing == old(tailing) && timedOut == old(timedOut)
    {
      if item.None? {
        return;
      }
      var it := item.value;
      if Js.Truthy(it.complete) {
        complete := true;
      }
      if it.max != 0 {
        max := Js.Some(it.max);
      }
      if it.min != 0 {
        min := Js.Some(it.min);
      }
      Redraw(it.data);
    }

    /** The stream's `done` callback: the timeout notice unless the
        stream said it was complete. */
    method Done()
      modifies this
      ensures timedOut == (old(timedOut) || !complete)
      ensures complete == old(complete) && renders == old(renders) && min == old(min) && max == old(max)
      ensures tailing == old(tailing) && built == old(built)
    {
      if complete {
        return;
      }
      timedOut := true;
    }

    // Navigation: the buttons exist once the selector is built.

    /** The user moves the slider towards `v`: the input holds the nearest
        value it allows, and the handler picks what the input holds. */
    method SliderInput(v: int)
      requires Valid() && built
      modifies this
      ensures Valid() && min == old(min) && max == old(max) && built && !tailing
      ensures slider == Sanitize(v, min.value, max.value) && renders == old(renders) + [Fetched(slider)]
    {
      slider := Sanitize(v, sliderMin, sliderMax);
      tailing := false;
      var idx := slider;
      PickRange(idx, Js.None);
    }

    method Stop()
      requires Valid() && built
      modifies this
      ensures Valid() && !tailing && renders == old(renders) && slider == old(slider)
      ensures min == old(min) && max == old(max) && built
    {
      tailing := false;
    }

    method Tail()
      requires Valid() && built
      modifies this
      ensures Valid() && min == old(min) && max == old(max) && built
      ensures tailing && renders == old(renders) + [Fetched(max.value)]
      ensures min.value <= max.value ==> slider == max.value
    {
      tailing := true;
      PickRange(max.value, Js.None);
    }

    method First()
      requires Valid() && built
      modifies this
      ensures Valid() && min == old(min) && max == old(max) && built
      ensures !tailing && renders == old(renders) + [Fetched(min.value)] && slider == min.value
    {
      tailing := false;
      PickRange(min.value, Js.None);
    }

    method Last()
      requires Valid() && built
      modifies this
      ensures Valid() && min == old(min) && max == old(max) && built
      ensures !tailing && renders == old(renders) + [Fetched(max.value)]
      ensures min.value <= max.value ==> slider == max.value
    {
      tailing := false;
      PickRange(max.value, Js.None);
    }

    /** One step up from the value the input holds, ignored past the
        maximum. */
    method Next()
      requires Valid() && built
      modifies this
      ensures Valid() && min == old(min) && max == old(max) && built
      ensures old(slider) + 1 > max.value ==> renders == old(renders) && slider == old(slider) && tailing == old(tailing)
      ensures old(slider) + 1 <= max.value ==>
                !tailing && slider == old(slider) + 1 && renders == old(renders) + [Fetched(slider)]
      ensures InRange(slider, min.value, max.value)
    {
      var idx := slider + 1;
      if idx > max.value {
        return;
      }
      tailing := false;
      PickRange(idx, Js.None);
    }

    /** One step down from the value the input holds, ignored below the
        minimum. */
    method Prev()
      requires Valid() && built
      modifies this
      ensures Valid() && min == old(min) && max == old(max) && built
      ensures old(slider) - 1 < min.value ==> renders == old(renders) && slider == old(slider) && tailing == old(tailing)
      ensures old(slider) - 1 >= min.value ==>
                !tailing && slider == old(slider) - 1 && renders == old(renders) + [Fetched(slider)]
      ensures InRange(slider, min.value, max.value)
    {
      var idx := slider - 1;
      if idx < min.value {
        return;
      }
      tailing := false;
      PickRange(idx, Js.None);
    }
  }

  /** Without tailing, the first record with both ends builds the
      selector at its midpoint, and `>` steps from there: ends 10 and 20
      fetch snapshot 16. */
  method NextFromMidpoint() returns (r: seq<Render>)
    ensures r == [Fetched(16)]
  {
    var p := new Page(false, Js.None);
    p.Ingest(Js.Some(Item(Js.Bool(false), 20, 10, Js.None)));
    p.Next();
    r := p.renders;
  }

  /** Moving ordered ends (`min` first, then `max`) pulls the input's
      value into the new range: when the maximum drops below it, the value
      becomes the new maximum; when the minimum rises above it, the new
      minimum; otherwise it stays. */
  lemma EndsPullValueIn(v: int, lo: int, hi: int, lo': int, hi': int)
    requires lo <= hi && InRange(v, lo, hi) && lo' <= hi'
    ensures var r := Sanitize(Sanitize(v, lo', hi), lo', hi');
      lo' <= r <= hi'
      && (lo' <= v <= hi' ==> r == v)
      && (v > hi' ==> r == hi')
      && (v < lo' ==> r == lo')
  {
  }

  /** The snapshot is reused when its `ord` is the index, as a number or
      as its decimal text (`==` converts); a missing snapshot, a null or a
      different `ord` means a fetch. */
  lemma RenderOfCases(idx: nat, other: int)
    requires other != idx
    ensures RenderOf(idx, Js.Some(Js.Num(idx))) == Reused(idx)
    ensures RenderOf(idx, Js.Some(Js.Str(Js.NatText(idx)))) == Reused(idx)
    ensures RenderOf(idx, Js.Some(Js.Num(other))) == Fetched(idx)
    ensures RenderOf(idx, Js.None) == Fetched(idx)
    ensures RenderOf(idx, Js.Some(Js.Null)) == Fetched(idx)
  {
    Js.NatTextRoundTrip(idx);
  }
}
