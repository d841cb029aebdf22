/** The job page (`job.js`): `render_event` lays every line of an event out
    as three grid cells (tools, tag, message) and registers the line's tag
    in the page-wide filter registry `t2hui.filters`, whose list of filters
    is kept sorted by text. */
module Job {
  import Js

  /** The parts of a facet record the page reads: whether `hubs` and
      `parent` are truthy. */
  datatype Facets = Facets(hubs: bool, parent: bool)

  /** One event line: `line[0]` is the facet, `line[1]` the tag and
      `line[2]` the message. */
  datatype Line = Line(facet: Js.Value, tag: string, message: string)

  /** An event as `render_event` reads it; a missing `facets` or `orphan`
      record is None. */
  datatype Event = Event(lines: seq<Line>, facets: Js.Option<Facets>, orphan: Js.Option<Facets>, nested: Js.Value)

  datatype Column = ToolsColumn | TagColumn | MessageColumn

  /** A grid cell: its column, the line's class string, the tag it is
      selected by, its text, whether it starts hidden, how many event tools
      it holds, whether it carries the expand toggle, and its left padding. */
  datatype Cell = Cell(column: Column, classes: string, tag: string, text: string, hidden: bool,
                       tools: nat, expand: bool, indent: string)

  // -----------------------------------------------------------------------
  // What a line's cells look like

  /** `nested + 1` as a number (None for NaN): a string `nested` is
      concatenated with `"1"` and then read as a number by `* 2`. */
  function NestedPlusOne(v: Js.Value): Js.Option<int> {
    match v
    case Undefined => Js.None
    case Null => Js.Some(1)
    case Bool(b) => Js.Some(if b then 2 else 1)
    case Num(n) => Js.Some(n + 1)
    case Str(s) => Js.ToNumber(Js.Str(s + "1"))
  }

  /** `'' + ((nested + 1) * 2) + 'ch'` */
  function Indent(v: Js.Value): string {
    match NestedPlusOne(v)
    case None => "NaNch"
    case Some(k) => Js.IntText(2 * k) + "ch"
  }

  /** A numeric nesting depth indents by two character widths per level,
      one level more than the depth; without a depth the padding is
      `NaNch`. */
  lemma IndentReadsBack(v: Js.Value)
    ensures v.Num? ==> |Indent(v)| > 2 && Indent(v)[|Indent(v)| - 2..] == "ch"
                       && Js.ToNumber(Js.Str(Indent(v)[..|Indent(v)| - 2])) == Js.Some(2 * (v.n + 1))
    ensures v == Js.Undefined ==> Indent(v) == "NaNch"
  {
    if v.Num? {
      var t := Js.IntText(2 * (v.n + 1));
      assert Indent(v) == t + "ch";
      assert |t| > 0 by {
        if 2 * (v.n + 1) < 0 {
        } else {
          assert |Js.NatText(2 * (v.n + 1))| > 0;
        }
      }
      assert Indent(v)[..|Indent(v)| - 2] == t;
      Js.IntTextRoundTrip(2 * (v.n + 1));
    }
  }

  /** `f`: the facets when they have hubs, else the orphan when it has. */
  function Hub(e: Event): Js.Option<Facets> {
    if e.facets.Some? && e.facets.value.hubs then e.facets
    else if e.orphan.Some? && e.orphan.value.hubs then e.orphan
    else Js.None
  }

  /** `p && line[0] == 'assert'` */
  predicate Expands(e: Event, l: Line) {
    Hub(e).Some? && Hub(e).value.parent && Js.LooseEqualsString(l.facet, "assert")
  }

  /** The expand toggle needs a parent hub and an `assert` line, and the
      facets' own hub wins over the orphan's. */
  lemma ExpandRule(e: Event, l: Line)
    ensures Expands(e, l) ==> Js.LooseEqualsString(l.facet, "assert")
    ensures e.facets.Some? && e.facets.value.hubs ==>
              (Expands(e, l) <==> e.facets.value.parent && Js.LooseEqualsString(l.facet, "assert"))
    ensures !(e.facets.Some? && e.facets.value.hubs) && e.orphan.Some? && e.orphan.value.hubs ==>
              (Expands(e, l) <==> e.orphan.value.parent && Js.LooseEqualsString(l.facet, "assert"))
    ensures !(e.facets.Some? && e.facets.value.hubs) && !(e.orphan.Some? && e.orphan.value.hubs) ==> !Expands(e, l)
  {
  }

  /** The event tools: one for the raw facets, one for the orphan. */
  function ToolCount(e: Event): nat {
    (if e.facets.Some? then 1 else 0) + (if e.orphan.Some? then 1 else 0)
  }

  /** `'facet_' + line[0] + ' tag_' + line[1]` */
  function Classes(l: Line): string {
    "facet_" + Js.ToText(l.facet) + " tag_" + l.tag
  }

  /** A tag's cells start hidden iff the registry has it switched off. */
  predicate Hidden(state: map<string, bool>, t: string) {
    t in state && !state[t]
  }

  /** The three cells of line `i`: tools, tag and message. */
  function Row(e: Event, i: nat, hidden: bool, tools: nat): seq<Cell>
    requires i < |e.lines|
  {
    var l := e.lines[i];
    [Cell(ToolsColumn, Classes(l), l.tag, "", hidden, tools, false, ""),
     Cell(TagColumn, Classes(l), l.tag, l.tag, hidden, 0, false, ""),
     Cell(MessageColumn, Classes(l), l.tag, l.message, hidden, 0, Expands(e, l), Indent(e.nested))]
  }

  /** The cells of line `i`, none of them holding the event tools. */
  function LineCells(e: Event, i: nat, state: map<string, bool>): seq<Cell>
    requires i < |e.lines|
  {
    Row(e, i, Hidden(state, e.lines[i].tag), 0)
  }

  /** The cells of the first `k` lines. */
  function EventCells(e: Event, state: map<string, bool>, k: nat): seq<Cell>
    requires k <= |e.lines|
  {
    if k == 0 then [] else EventCells(e, state, k - 1) + LineCells(e, k - 1, state)
  }

  /** Appending the event tools to a line's tools cell moves them out of
      the previous one, so only the last line's tools cell keeps them. */
  function HoldTools(cells: seq<Cell>, k: nat, e: Event): seq<Cell>
    requires 3 * k <= |cells|
  {
    if k == 0 then cells else cells[3 * (k - 1) := cells[3 * (k - 1)].(tools := ToolCount(e))]
  }

  /** The cells of `render_event`. */
  function RenderedCells(e: Event, state: map<string, bool>): seq<Cell> {
    CellsLength(e, state, |e.lines|);
    HoldTools(EventCells(e, state, |e.lines|), |e.lines|, e)
  }

  lemma {:induction false} CellsLength(e: Event, state: map<string, bool>, k: nat)
    requires k <= |e.lines|
    ensures |EventCells(e, state, k)| == 3 * k
  {
    if k > 0 {
      CellsLength(e, state, k - 1);
    }
  }

  /** Line `j`'s cells sit at `3j`, `3j+1` and `3j+2`, in the order tools,
      tag, message. */
  lemma {:induction false} CellsAt(e: Event, state: map<string, bool>, k: nat, j: nat)
    requires j < k <= |e.lines|
    ensures |EventCells(e, state, k)| == 3 * k
    ensures EventCells(e, state, k)[3 * j..3 * j + 3] == LineCells(e, j, state)
  {
    CellsLength(e, state, k);
    CellsLength(e, state, k - 1);
    if j < k - 1 {
      CellsAt(e, state, k - 1, j);
      var p := EventCells(e, state, k - 1);
      assert EventCells(e, state, k)[3 * j..3 * j + 3] == p[3 * j..3 * j + 3];
    } else {
      assert EventCells(e, state, k)[3 * j..] == LineCells(e, j, state);
    }
  }

  /** A cell carries its line's classes and tag, and is hidden iff the
      tag is off. */
  predicate Marked(c: Cell, l: Line, state: map<string, bool>) {
    c.classes == Classes(l) && c.tag == l.tag && (c.hidden <==> Hidden(state, l.tag))
  }

  /** `render_event` returns exactly three cells per line, tools, tag
      and message; all three carry the line's classes and are hidden iff the
      tag is switched off; only the message cell is indented and may
      carry the expand toggle; the event tools sit in the last line's
      tools cell alone. */
  lemma RenderedShape(e: Event, state: map<string, bool>, j: nat)
    requires j < |e.lines|
    ensures |RenderedCells(e, state)| == 3 * |e.lines|
    ensures var r := RenderedCells(e, state); var l := e.lines[j];
      r[3 * j].column == ToolsColumn && r[3 * j + 1].column == TagColumn && r[3 * j + 2].column == MessageColumn
      && Marked(r[3 * j], l, state) && Marked(r[3 * j + 1], l, state) && Marked(r[3 * j + 2], l, state)
      && r[3 * j + 1].text == l.tag && r[3 * j + 2].text == l.message
      && r[3 * j + 2].indent == Indent(e.nested) && r[3 * j].indent == ""
      && (r[3 * j + 2].expand <==> Expands(e, l)) && !r[3 * j].expand && !r[3 * j + 1].expand
      && r[3 * j].tools == (if j == |e.lines| - 1 then ToolCount(e) else 0)
      && r[3 * j + 1].tools == 0 && r[3 * j + 2].tools == 0
  {
    RenderedAt(e, state, j);
  }

  /** The rendered cells of line `j` are its three cells, the first
      holding the event tools when `j` is the last line. */
  lemma RenderedAt(e: Event, state: map<string, bool>, j: nat)
    requires j < |e.lines|
    ensures |RenderedCells(e, state)| == 3 * |e.lines|
    ensures var r := RenderedCells(e, state); var lc := LineCells(e, j, state);
      r[3 * j] == lc[0].(tools := if j == |e.lines| - 1 then ToolCount(e) else 0)
      && r[3 * j + 1] == lc[1] && r[3 * j + 2] == lc[2]
  {
    var n := |e.lines|;
    CellsAt(e, state, n, j);
    var cells := EventCells(e, state, n);
    var lc := LineCells(e, j, state);
    assert cells[3 * j] == lc[0] && cells[3 * j + 1] == lc[1] && cells[3 * j + 2] == lc[2];
  }

  // -----------------------------------------------------------------------
  // Tags an event registers

  /** The tags of `lines` not in `seen`, each once, in the order of their
      first line. */
  function NewTags(seen: set<string>, lines: seq<Line>): seq<string> {
    if lines == [] then []
    else
      var p := NewTags(seen, lines[..|lines| - 1]);
      var t := lines[|lines| - 1].tag;
      if t in seen || t in p then p else p + [t]
  }

  /** The tags of some lines. */
  function Tags(lines: seq<Line>): set<string> {
    set l | l in lines :: l.tag
  }

  /** The new tags are exactly the tags of the lines not seen before. */
  lemma {:induction false} NewTagsAre(seen: set<string>, lines: seq<Line>)
    ensures forall t :: t in NewTags(seen, lines) <==> t !in seen && t in Tags(lines)
  {
    if lines != [] {
      var q := lines[..|lines| - 1];
      NewTagsAre(seen, q);
      assert lines == q + [lines[|lines| - 1]];
      assert Tags(lines) == Tags(q) + {lines[|lines| - 1].tag};
    }
  }

  /** No tag is registered twice. */
  lemma {:induction false} NewTagsDistinct(seen: set<string>, lines: seq<Line>)
    ensures forall i, j :: 0 <= i < j < |NewTags(seen, lines)| ==> NewTags(seen, lines)[i] != NewTags(seen, lines)[j]
  {
    if lines != [] {
      NewTagsDistinct(seen, lines[..|lines| - 1]);
    }
  }

  // -----------------------------------------------------------------------
  // Filter clicks

  /** What a filter's click handler acts on: the tag whose state it flips
      and shows or hides, and the filter it marks `off`. */
  datatype Handler = Handler(tag: string, filter: string)

  /** The handlers `render_event` installs.  The handler closes over `line`
      and `filter`, which `var` scopes to the whole call, so when it runs
      they hold the call's last line and the last filter it created: every
      filter of the call acts on the same tag and filter. */
  function CallHandlers(seen: set<string>, lines: seq<Line>): (r: map<string, Handler>)
    ensures forall t :: t in r <==> t in NewTags(seen, lines)
    ensures forall t, u :: t in r && u in r ==> r[t] == r[u]
    ensures forall t :: t in r ==> |lines| > 0 && r[t].tag == lines[|lines| - 1].tag
  {
    var created := NewTags(seen, lines);
    if created == [] then map[]
    else map t | t in created :: Handler(lines[|lines| - 1].tag, created[|created| - 1])
  }

  /** The handler that was evidently meant: the filter's own tag. */
  function OwnHandler(t: string): Handler {
    Handler(t, t)
  }

  /** What the page shows: the tag states, the filters marked off and the
      grid cells. */
  datatype View = View(state: map<string, bool>, off: set<string>, cells: seq<Cell>)

  /** `$('div.tag_' + tag).show()` or `.hide()` */
  function Reshow(cells: seq<Cell>, t: string, on: bool): (r: seq<Cell>)
    ensures |r| == |cells|
    ensures forall i :: 0 <= i < |cells| ==> r[i] == if cells[i].tag == t then cells[i].(hidden := !on) else cells[i]
  {
    if cells == [] then []
    else [if cells[0].tag == t then cells[0].(hidden := !on) else cells[0]] + Reshow(cells[1..], t, on)
  }

  /** Showing or hiding keeps the cells' tags. */
  lemma ReshowKeepsTags(cells: seq<Cell>, t: string, on: bool, seen: set<string>)
    requires CellsKnown(cells, seen)
    ensures CellsKnown(Reshow(cells, t, on), seen)
  {
    var r := Reshow(cells, t, on);
    forall c | c in r
      ensures c.tag in seen
    {
      var i :| 0 <= i < |r| && r[i] == c;
      assert cells[i] in cells;
    }
  }

  /** `state[tag] = !state[tag]`, then the filter's `off` mark and the
      tag's cells follow the new state. */
  function ClickView(v: View, h: Handler): View
    requires h.tag in v.state
  {
    var on := !v.state[h.tag];
    View(v.state[h.tag := on],
         if on then v.off - {h.filter} else v.off + {h.filter},
         Reshow(v.cells, h.tag, on))
  }

  /** The page agrees with the registry: a filter is off iff its tag is,
      and a cell is hidden iff its tag is off. */
  predicate Consistent(v: View) {
    (forall t :: t in v.state ==> (t in v.off <==> !v.state[t]))
    && (forall c :: c in v.cells ==> c.tag in v.state && (c.hidden <==> !v.state[c.tag]))
  }

  /** With each handler acting on its own tag, a click flips exactly that
      tag, and the page stays consistent with the registry. */
  lemma ClickOwnTag(v: View, t: string)
    requires Consistent(v) && t in v.state && v.off <= v.state.Keys
    ensures var w := ClickView(v, OwnHandler(t));
      Consistent(w) && w.state == v.state[t := !v.state[t]] && w.off <= w.state.Keys
      && |w.cells| == |v.cells| && forall i :: 0 <= i < |v.cells| && v.cells[i].tag != t ==> w.cells[i] == v.cells[i]
  {
    var w := ClickView(v, OwnHandler(t));
    forall c | c in w.cells
      ensures c.tag in w.state && (c.hidden <==> !w.state[c.tag])
    {
      var i :| 0 <= i < |w.cells| && w.cells[i] == c;
      assert v.cells[i] in v.cells;
    }
  }

  /** As written: an event whose lines are tagged PASS then NOTE, both new,
      gives the PASS filter a handler that flips NOTE; a click on PASS
      leaves PASS as it was and turns NOTE off. */
  lemma ClickFlipsLastTag()
    ensures var lines := [Line(Js.Str("assert"), "PASS", "ok"), Line(Js.Str("info"), "NOTE", "hi")];
      var h := CallHandlers({}, lines);
      "PASS" in h && h["PASS"] == Handler("NOTE", "NOTE")
      && var v := View(map["PASS" := true, "NOTE" := true], {}, []);
      Consistent(v) && ClickView(v, h["PASS"]).state == map["PASS" := true, "NOTE" := false]
  {
    var lines := [Line(Js.Str("assert"), "PASS", "ok"), Line(Js.Str("info"), "NOTE", "hi")];
    assert lines[..1] == [lines[0]] && lines[..1][..0] == [];
    assert NewTags({}, lines[..1]) == ["PASS"];
    assert NewTags({}, lines) == ["PASS", "NOTE"];
  }

  /** Every seen tag's filter has a handler, acting on seen tags. */
  ghost predicate HandlersKnown(handlers: map<string, Handler>, seen: set<string>) {
    handlers.Keys == seen && forall h :: h in handlers.Values ==> h.tag in seen && h.filter in seen
  }

  /** Every cell on the page belongs to a seen tag. */
  ghost predicate CellsKnown(cells: seq<Cell>, seen: set<string>) {
    forall c :: c in cells ==> c.tag in seen
  }

  // -----------------------------------------------------------------------
  // The page-wide registry

  /** `t2hui.filters` with the page it controls: tags seen, their states,
      the filter list in list order, the filters marked `off`, each
      filter's click handler, and the grid cells on the page. */
  class Registry {
    var seen: set<string>
    var state: map<string, bool>
    var filters: seq<string>
    var off: set<string>
    var handlers: map<string, Handler>
    var cells: seq<Cell>

    /** Every seen tag has a state and exactly one filter; the list is
        sorted by text. */
    ghost predicate Registered()
      reads this
    {
      state.Keys == seen && Js.StrictlySorted(filters) && (forall t :: t in filters <==> t in seen)
    }

    /** ... and every filter has a handler acting on seen tags. */
    ghost predicate Valid()
      reads this
    {
      Registered() && HandlersKnown(handlers, seen) && off <= seen && CellsKnown(cells, seen)
    }

    function Shown(): View
      reads this
    {
      View(state, off, cells)
    }

    constructor ()
      ensures Valid() && seen == {} && filters == [] && cells == []
    {
      seen := {};
      state := map[];
      filters := [];
      off := {};
      handlers := map[];
      cells := [];
    }

    /** The registration step of one line: a tag not seen yet gets state
        true and a filter inserted before the first filter with greater
        text, or at the end. */
    method Register(t: string)
      requires Registered()
      modifies this
      ensures Registered() && seen == old(seen) + {t}
      ensures t in old(seen) ==> state == old(state) && filters == old(filters)
      ensures t !in old(seen) ==> (state == old(state)[t := true]
        && filters == Js.InsertAt(old(filters), Js.InsertionPoint(old(filters), t), t))
      ensures off == old(off) && handlers == old(handlers) && cells == old(cells)
    {
      if t !in seen {
        seen := seen + {t};
        state := state[t := true];
        var others := filters;
        var j := InsertionIndex(others, t);
        Js.InsertKeepsSorted(others, t);
        filters := Js.InsertAt(others, j, t);
        assert forall x :: x in filters <==> x in others || x == t by {
          assert filters == others[..j] + [t] + others[j..] && others == others[..j] + others[j..];
        }
      }
    }

    /** `render_event(e)`: registers the event's new tags (state true,
        sorted filter, the call's handlers) and returns its cells, laid
        out against the registry as it was before the call; neither the
        `off` marks nor the page change. */
    method RenderEvent(e: Event) returns (me: seq<Cell>)
      requires Valid()
      modifies this
      ensures Valid()
      ensures me == RenderedCells(e, old(state))
      ensures seen == old(seen) + set t | t in NewTags(old(seen), e.lines)
      ensures state == Switched(old(state), NewTags(old(seen), e.lines))
      ensures handlers == old(handlers) + CallHandlers(old(seen), e.lines)
      ensures off == old(off) && cells == old(cells)
    {
      var seen0 := seen;
      var state0 := state;
      var n := |e.lines|;
      var created: seq<string> := [];
      me := [];
      var i := 0;
      while i < n
        invariant 0 <= i <= n
        invariant Registered() && state0.Keys == seen0
        invariant forall t :: t in created ==> t !in seen0
        invariant created == NewTags(seen0, e.lines[..i])
        invariant seen == seen0 + set t | t in created
        invariant state == Switched(state0, created)
        invariant |me| == 3 * i && |EventCells(e, state0, i)| == 3 * i
        invariant me == HoldTools(EventCells(e, state0, i), i, e)
        invariant off == old(off) && handlers == old(handlers) && cells == old(cells)
      {
        created, me := RenderLine(e, i, seen0, state0, created, me);
        i := i + 1;
      }
      assert e.lines[..n] == e.lines;
      CellsLength(e, state0, n);
      handlers := handlers + CallHandlers(seen0, e.lines);
      NewTagsAre(seen0, e.lines);
    }

    /** One pass of `render_event`'s loop: register line `i`'s tag, move
        the event tools on and lay out the line's cells. */
    method RenderLine(e: Event, i: nat, seen0: set<string>, state0: map<string, bool>, created: seq<string>, me: seq<Cell>)
      returns (created': seq<string>, me': seq<Cell>)
      requires i < |e.lines| && Registered() && state0.Keys == seen0
      requires forall t :: t in created ==> t !in seen0
      requires created == NewTags(seen0, e.lines[..i])
      requires seen == seen0 + set t | t in created
      requires state == Switched(state0, created)
      requires |me| == 3 * i && |EventCells(e, state0, i)| == 3 * i
      requires me == HoldTools(EventCells(e, state0, i), i, e)
      modifies this
      ensures Registered()
      ensures forall t :: t in created' ==> t !in seen0
      ensures created' == NewTags(seen0, e.lines[..i + 1])
      ensures seen == seen0 + set t | t in created'
      ensures state == Switched(state0, created')
      ensures |me'| == 3 * (i + 1) && |EventCells(e, state0, i + 1)| == 3 * (i + 1)
      ensures me' == HoldTools(EventCells(e, state0, i + 1), i + 1, e)
      ensures off == old(off) && handlers == old(handlers) && cells == old(cells)
    {
      var l := e.lines[i];
      var known := l.tag in seen;
      Register(l.tag);
      RenderStep(e, i, seen0, created, known);
      created' := created;
      if !known {
        SwitchedStep(state0, created, l.tag);
        created' := created + [l.tag];
      }
      SwitchedOn(state0, created', l.tag);
      var h := !state[l.tag];
      me' := me;
      if i > 0 {
        me' := me'[3 * (i - 1) := me'[3 * (i - 1)].(tools := 0)];
      }
      me' := me' + Row(e, i, h, ToolCount(e));
      HoldStep(e, state0, i, me, me');
    }

    /** `events.append(render_event(e))` */
    method Show(me: seq<Cell>)
      requires Valid() && forall c :: c in me ==> c.tag in seen
      modifies this
      ensures Valid() && cells == old(cells) + me
      ensures seen == old(seen) && state == old(state) && filters == old(filters)
      ensures off == old(off) && handlers == old(handlers)
    {
      cells := cells + me;
    }

    /** A click on filter `f` runs the handler `render_event` installed for
        it. */
    method Click(f: string)
      requires Valid() && f in handlers
      modifies this
      ensures Valid() && Shown() == ClickView(old(Shown()), old(handlers[f]))
      ensures seen == old(seen) && filters == old(filters) && handlers == old(handlers)
    {
      var h := handlers[f];
      var on := !state[h.tag];
      state := state[h.tag := on];
      if on {
        off := off - {h.filter};
      } else {
        off := off + {h.filter};
      }
      ReshowKeepsTags(cells, h.tag, on, seen);
      cells := Reshow(cells, h.tag, on);
    }
  }

  /** The search for a new filter's place: before the first filter whose
      text is greater, else at the end. */
  method InsertionIndex(others: seq<string>, t: string) returns (j: nat)
    ensures j == Js.InsertionPoint(others, t)
  {
    j := 0;
    var added := false;
    while j < |others| && !added
      invariant 0 <= j <= |others|
      invariant forall i :: 0 <= i < j ==> !Js.StrLess(t, others[i])
      invariant added ==> j < |others| && Js.StrLess(t, others[j])
      decreases |others| - j + (if added then 0 else 1)
    {
      if Js.StrLess(t, others[j]) {
        added := true;
      } else {
        j := j + 1;
      }
    }
    Js.InsertionPointIs(others, t, j);
  }

  /** The registry's states once the tags `created` are registered. */
  function Switched(state: map<string, bool>, created: seq<string>): (r: map<string, bool>)
    ensures r.Keys == state.Keys + set t | t in created
  {
    if created == [] then state else Switched(state, created[..|created| - 1])[created[|created| - 1] := true]
  }

  lemma SwitchedStep(state: map<string, bool>, created: seq<string>, t: string)
    ensures Switched(state, created + [t]) == Switched(state, created)[t := true]
  {
    assert (created + [t])[..|created|] == created;
  }

  /** Registering leaves the states of known tags alone and switches every
      new tag on. */
  lemma {:induction false} SwitchedOn(state: map<string, bool>, created: seq<string>, t: string)
    requires t in Switched(state, created)
    ensures Switched(state, created)[t] == if t in created then true else state[t]
  {
    if created != [] && t != created[|created| - 1] {
      SwitchedOn(state, created[..|created| - 1], t);
    }
  }

  /** The bookkeeping of one loop step of `render_event`: the new-tag list
      grows exactly when the tag is unknown. */
  lemma RenderStep(e: Event, i: nat, seen0: set<string>, created: seq<string>, known: bool)
    requires i < |e.lines| && created == NewTags(seen0, e.lines[..i])
    requires known <==> e.lines[i].tag in seen0 || e.lines[i].tag in created
    ensures NewTags(seen0, e.lines[..i + 1]) == if known then created else created + [e.lines[i].tag]
  {
    assert e.lines[..i + 1][..i] == e.lines[..i];
  }

  /** Moving the event tools to the new last line keeps the invariant. */
  lemma HoldStep(e: Event, state: map<string, bool>, i: nat, prior: seq<Cell>, now: seq<Cell>)
    requires i < |e.lines| && |EventCells(e, state, i)| == 3 * i
    requires prior == HoldTools(EventCells(e, state, i), i, e)
    requires now == (if i > 0 then prior[3 * (i - 1) := prior[3 * (i - 1)].(tools := 0)] else prior)
                    + Row(e, i, Hidden(state, e.lines[i].tag), ToolCount(e))
    ensures |now| == 3 * (i + 1) && |EventCells(e, state, i + 1)| == 3 * (i + 1)
    ensures now == HoldTools(EventCells(e, state, i + 1), i + 1, e)
  {
    var cells := EventCells(e, state, i);
    if i > 0 {
      LastToolsEmpty(e, state, i);
      assert prior[3 * (i - 1) := prior[3 * (i - 1)].(tools := 0)] == cells;
    }
  }

  /** Before the move, no tools cell holds any event tools. */
  lemma {:induction false} LastToolsEmpty(e: Event, state: map<string, bool>, k: nat)
    requires 0 < k <= |e.lines|
    ensures |EventCells(e, state, k)| == 3 * k && EventCells(e, state, k)[3 * (k - 1)].tools == 0
  {
    CellsLength(e, state, k);
    CellsLength(e, state, k - 1);
  }
}
