/** The event table (`t2hui.eventtable`): each event is expanded into one
    row per output line; `place_row` parks orphans at the end until a
    top-level event arrives and puts subtest children after their parent's
    last row; `modify_row` tags each row and keeps a sorted list of tag
    filters. */
module EventTable {
  import Js
  import Dom
  import FieldTable

  /** An event as the stream delivers it: its properties and its output
      lines, each `[facet, tag, message, table]`. */
  datatype Event = Event(props: map<string, Js.Value>, lines: seq<seq<Js.Value>>)

  function EProp(e: Event, k: string): Js.Value {
    if k in e.props then e.props[k] else Js.Undefined
  }

  /** `line[i]`: undefined past the end. */
  function At(line: seq<Js.Value>, i: nat): Js.Value {
    if i < |line| then line[i] else Js.Undefined
  }

  // -----------------------------------------------------------------------
  // Expanding an event into lines

  /** One record of `expand_lines`. */
  datatype Line = Line(tools: Js.Value, tag: Js.Value, message: Js.Value, table: Js.Value, facet: Js.Value,
                       event: Event, setOrd: nat, setTotal: nat, id: Js.Value)

  /** The record for line `i`: only the first line carries the tools, as
      the number of lines. */
  function LineOf(e: Event, i: nat): Line
    requires i < |e.lines|
  {
    var line := e.lines[i];
    Line(if i == 0 then Js.Num(|e.lines|) else Js.Bool(false), At(line, 1), At(line, 2), At(line, 3), At(line, 0),
         e, i, |e.lines|, EProp(e, "event_id"))
  }

  /** `expand_lines`: one record per line, in line order, numbered by the
      `count` the loop increments. */
  method ExpandLines(e: Event) returns (out: seq<Line>)
    ensures |out| == |e.lines|
    ensures forall i :: 0 <= i < |out| ==> out[i] == LineOf(e, i)
  {
    out := [];
    var tools := true;
    var count := 0;
    while count < |e.lines|
      invariant 0 <= count <= |e.lines| && |out| == count
      invariant tools <==> count == 0
      invariant forall i :: 0 <= i < count ==> out[i] == LineOf(e, i)
    {
      var line := e.lines[count];
      out := out + [Line(if tools then Js.Num(|e.lines|) else Js.Bool(false), At(line, 1), At(line, 2), At(line, 3),
                         At(line, 0), e, count, |e.lines|, EProp(e, "event_id"))];
      count := count + 1;
      tools := false;
    }
  }

  /** The tools cell of a line row: hidden without tools, otherwise
      spanning `tools` rows, with the facet and orphan viewers when the
      event has them. */
  datatype ToolsCell = Hidden | Span(rowspan: string, facets: bool, orphan: bool)

  /** `tool_builder` */
  function ToolCell(x: Line): ToolsCell {
    if !Js.Truthy(x.tools) then Hidden
    else Span(Js.ToText(x.tools), Js.Truthy(EProp(x.event, "facets")), Js.Truthy(EProp(x.event, "orphan")))
  }

  /** Of an event's rows only the first shows its tools cell, and that
      cell spans all of the event's rows, so the rows line up; every
      record knows its place in the set and the event it came from. */
  lemma ExpandedTools(e: Event, i: nat)
    requires i < |e.lines|
    ensures ToolCell(LineOf(e, i)).Span? <==> i == 0
    ensures i == 0 ==> Js.ToNumber(Js.Str(ToolCell(LineOf(e, i)).rowspan)) == Js.Some(|e.lines|)
    ensures LineOf(e, i).setOrd == i && LineOf(e, i).setTotal == |e.lines| && LineOf(e, i).id == EProp(e, "event_id")
  {
    if i == 0 {
      Js.IntTextRoundTrip(|e.lines|);
    }
  }

  // -----------------------------------------------------------------------
  // Tags

  /** `\w`: letters, digits and the underscore. */
  predicate IsWord(c: char) {
    'a' <= c <= 'z' || 'A' <= c <= 'Z' || '0' <= c <= '9' || c == '_'
  }

  predicate AllWord(s: string) {
    forall i :: 0 <= i < |s| ==> IsWord(s[i])
  }

  /** `s` without its leading non-word characters. */
  function SkipNonWord(s: string): (r: string)
    ensures |r| <= |s| && (r == [] || IsWord(r[0]))
    ensures r == s[|s| - |r|..]
  {
    if s == [] || IsWord(s[0]) then s else SkipNonWord(s[1..])
  }

  /** `clean_tag`: `tag.replace(/[\W]+/g, "_")`. */
  function CleanTag(s: string): (r: string)
    ensures AllWord(r)
    ensures |r| <= |s|
    decreases |s|
  {
    if s == [] then []
    else if IsWord(s[0]) then [s[0]] + CleanTag(s[1..])
    else "_" + CleanTag(SkipNonWord(s[1..]))
  }

  /** A tag made of word characters is already clean. */
  lemma {:induction false} CleanTagKeepsWords(s: string)
    requires AllWord(s)
    ensures CleanTag(s) == s
  {
    if s != [] {
      assert AllWord(s[1..]) by {
        forall i | 0 <= i < |s[1..]| ensures IsWord(s[1..][i]) {
          assert s[1..][i] == s[i + 1];
        }
      }
      CleanTagKeepsWords(s[1..]);
    }
  }

  /** Cleaning twice is cleaning once. */
  lemma CleanTagIdempotent(s: string)
    ensures CleanTag(CleanTag(s)) == CleanTag(s)
  {
    CleanTagKeepsWords(CleanTag(s));
  }

  /** Every maximal run of non-word characters becomes exactly one `_`. */
  lemma {:induction false} CleanTagRun(w: string, junk: string, rest: string)
    requires AllWord(w) && |junk| > 0 && (forall i :: 0 <= i < |junk| ==> !IsWord(junk[i]))
    requires rest == [] || IsWord(rest[0])
    ensures CleanTag(w + junk + rest) == w + "_" + CleanTag(rest)
    decreases |w|
  {
    if w == [] {
      assert w + junk + rest == junk + rest;
      CleanTagJunk(junk, rest);
    } else {
      var t := w[1..] + junk + rest;
      ConsSplit(w, junk, rest);
      ConsSplit(w, "_", CleanTag(rest));
      AllWordTail(w);
      CleanTagWord(w[0], t);
      CleanTagRun(w[1..], junk, rest);
    }
  }

  lemma AllWordTail(w: string)
    requires AllWord(w) && w != []
    ensures IsWord(w[0]) && AllWord(w[1..])
  {
    forall i | 0 <= i < |w[1..]| ensures IsWord(w[1..][i]) {
      assert w[1..][i] == w[i + 1];
    }
  }

  lemma ConsSplit(w: string, a: string, b: string)
    requires w != []
    ensures w + a + b == [w[0]] + (w[1..] + a + b)
  {
    assert w == [w[0]] + w[1..];
  }

  /** A word character is kept. */
  lemma CleanTagWord(c: char, s: string)
    requires IsWord(c)
    ensures CleanTag([c] + s) == [c] + CleanTag(s)
  {
    assert ([c] + s)[0] == c && ([c] + s)[1..] == s;
  }

  /** A leading run of non-word characters becomes one `_`. */
  lemma CleanTagJunk(junk: string, rest: string)
    requires |junk| > 0 && (forall i :: 0 <= i < |junk| ==> !IsWord(junk[i]))
    requires rest == [] || IsWord(rest[0])
    ensures CleanTag(junk + rest) == "_" + CleanTag(rest)
  {
    var s := junk + rest;
    assert s[0] == junk[0] && s[1..] == junk[1..] + rest;
    SkipRun(junk, rest);
  }

  lemma {:induction false} SkipRun(junk: string, rest: string)
    requires |junk| > 0 && (forall i :: 0 <= i < |junk| ==> !IsWord(junk[i]))
    requires rest == [] || IsWord(rest[0])
    ensures SkipNonWord(junk[1..] + rest) == rest
    decreases |junk|
  {
    if |junk| > 1 {
      assert (junk[1..] + rest)[0] == junk[1];
      assert (junk[1..] + rest)[1..] == junk[1..][1..] + rest;
      SkipRun(junk[1..], rest);
    } else {
      assert junk[1..] + rest == rest;
    }
  }

  // -----------------------------------------------------------------------
  // Placement

  /** `row_state`: the first orphan row waiting, and per parent id the
      row a parent's next child goes after. */
  datatype EventState = EventState(orphan: Js.Option<Dom.Node>, last: map<string, Dom.Node>)

  predicate Parks(x: Line) {
    !Js.Truthy(EProp(x.event, "loading_subtest")) && Js.Truthy(EProp(x.event, "orphan"))
  }

  /** An orphan row: marked `temp_orphan`, the first one also
      `first_orphan` and remembered, and appended. */
  function PlaceOrphan(d: Dom.Doc, n: Dom.Node, st: EventState): FieldTable.Placement<EventState> {
    var d1 := Dom.AddClass(d, n, "temp_orphan");
    if st.orphan.None? then
      FieldTable.Placement(FieldTable.Placed, Dom.Append(Dom.AddClass(d1, n, "first_orphan"), n), st.(orphan := Js.Some(n)))
    else FieldTable.Placement(FieldTable.Placed, Dom.Append(d1, n), st)
  }

  /** A top-level row: the orphans waiting leave the table, then the row is
      appended. */
  function PlaceTop(d: Dom.Doc, n: Dom.Node, st: EventState): FieldTable.Placement<EventState> {
    FieldTable.Placement(FieldTable.Placed, Dom.Append(Dom.DetachWithClass(d, "temp_orphan"), n), st.(orphan := Js.None))
  }

  /** A child row goes after the anchor and becomes its parent's anchor. */
  function PlaceChild(d: Dom.Doc, n: Dom.Node, pid: string, anchor: Dom.Node, st: EventState)
    : FieldTable.Placement<EventState>
  {
    FieldTable.Placement(FieldTable.Placed, Dom.InsertAfter(d, anchor, n), st.(last := st.last[pid := n]))
  }

  /** `place_row` as written: for the first child of a parent it looks the
      parent up with `table.table.find`, but the engine passes its jQuery
      table element, whose `table` property is undefined, so it throws. */
  function PlaceRow(d: Dom.Doc, n: Dom.Node, x: Line, st: EventState): FieldTable.Placement<EventState> {
    var pid := Js.ToText(EProp(x.event, "parent_id"));
    if Parks(x) then PlaceOrphan(d, n, st)
    else if !Js.Truthy(EProp(x.event, "parent_id")) then PlaceTop(d, n, st)
    else if pid !in st.last then FieldTable.Placement(FieldTable.Raised, d, st)
    else PlaceChild(d, n, pid, st.last[pid], st)
  }

  /** The first row of a subtest child makes `place_row` throw. */
  lemma FirstChildRaises(d: Dom.Doc, n: Dom.Node, x: Line, st: EventState)
    requires !Parks(x) && Js.Truthy(EProp(x.event, "parent_id"))
    requires Js.ToText(EProp(x.event, "parent_id")) !in st.last
    ensures PlaceRow(d, n, x, st).outcome == FieldTable.Raised
  {
  }

  /** The last body row with `data-event-id` equal to `id`. */
  function LastTagged(d: Dom.Doc, s: seq<Dom.Node>, id: string): (r: Js.Option<Dom.Node>)
    ensures r.Some? ==> r.value in s && Dom.Attr(d, r.value, "data-event-id") == Js.Some(id)
    ensures r.None? ==> forall i :: 0 <= i < |s| ==> Dom.Attr(d, s[i], "data-event-id") != Js.Some(id)
  {
    if s == [] then Js.None
    else if Dom.Attr(d, s[|s| - 1], "data-event-id") == Js.Some(id) then Js.Some(s[|s| - 1])
    else LastTagged(d, s[..|s| - 1], id)
  }

  /** `place_row` with the lookup done on the body: a parent with no row
      in the table (`got.last()` of nothing) leaves the child out. */
  function PlaceRowFixed(d: Dom.Doc, n: Dom.Node, x: Line, st: EventState): (p: FieldTable.Placement<EventState>)
    ensures p.outcome == FieldTable.Placed
  {
    var pid := Js.ToText(EProp(x.event, "parent_id"));
    if Parks(x) then PlaceOrphan(d, n, st)
    else if !Js.Truthy(EProp(x.event, "parent_id")) then PlaceTop(d, n, st)
    else if pid in st.last then PlaceChild(d, n, pid, st.last[pid], st)
    else match LastTagged(d, d.body, pid)
      case Some(a) => PlaceChild(d, n, pid, a, st)
      case None => FieldTable.Placement(FieldTable.Placed, d, st.(last := st.last[pid := n]))
  }

  /** The correction changes only the throwing branch: wherever the
      as-written `place_row` does not throw, it places the row exactly as
      the corrected one does. */
  lemma PlaceRowAgrees(d: Dom.Doc, n: Dom.Node, x: Line, st: EventState)
    ensures PlaceRow(d, n, x, st) == PlaceRowFixed(d, n, x, st) <==> PlaceRow(d, n, x, st).outcome != FieldTable.Raised
  {
  }

  /** An orphan goes last, marked `temp_orphan`; only the first orphan is
      remembered and marked `first_orphan`. */
  lemma OrphanParks(d: Dom.Doc, n: Dom.Node, x: Line, st: EventState)
    requires Parks(x)
    ensures var p := PlaceRowFixed(d, n, x, st);
      p.doc.body == Dom.Without(d.body, n) + [n] && Dom.HasClass(p.doc, n, "temp_orphan")
      && (Dom.HasClass(p.doc, n, "first_orphan") <==> st.orphan.None? || Dom.HasClass(d, n, "first_orphan"))
      && p.state.orphan == (if st.orphan.None? then Js.Some(n) else st.orphan) && p.state.last == st.last
  {
  }

  /** A top-level row clears the waiting orphans: no row marked
      `temp_orphan` stays attached, and the row goes last. */
  lemma TopClearsOrphans(d: Dom.Doc, n: Dom.Node, x: Line, st: EventState)
    requires !Parks(x) && !Js.Truthy(EProp(x.event, "parent_id")) && !Dom.HasClass(d, n, "temp_orphan")
    ensures var p := PlaceRowFixed(d, n, x, st);
      p.state.orphan == Js.None && |p.doc.body| > 0 && p.doc.body[|p.doc.body| - 1] == n
      && forall m :: Dom.Attached(p.doc, m) ==> !Dom.HasClass(p.doc, m, "temp_orphan")
  {
    var e := Dom.DetachWithClass(d, "temp_orphan");
    var r := PlaceRowFixed(d, n, x, st).doc;
    assert r == Dom.Append(e, n);
    forall m | Dom.Attached(r, m) ensures !Dom.HasClass(r, m, "temp_orphan") {
      if m != n {
        assert Dom.Attached(e, m);
      }
    }
  }

  /** A child goes right after its parent's anchor and becomes the anchor. */
  lemma ChildAfterAnchor(d: Dom.Doc, u: seq<Dom.Node>, a: Dom.Node, y: seq<Dom.Node>, n: Dom.Node, x: Line, st: EventState)
    requires !Parks(x) && Js.Truthy(EProp(x.event, "parent_id"))
    requires var pid := Js.ToText(EProp(x.event, "parent_id")); pid in st.last && st.last[pid] == a
    requires d.body == u + [a] + y && a !in u && !Dom.Attached(d, n)
    ensures var p := PlaceRowFixed(d, n, x, st);
      p.doc.body == u + [a] + [n] + y && p.doc.head == d.head
      && p.state == st.(last := st.last[Js.ToText(EProp(x.event, "parent_id")) := n])
  {
    Dom.InsertBeside(d, u, a, y, n, true);
  }

  /** The children of one parent, placed one after another behind the
      parent's anchor `a`, follow it in arrival order. */
  lemma {:induction false} ChildrenInOrder(d: Dom.Doc, x: seq<Dom.Node>, a: Dom.Node, y: seq<Dom.Node>,
                                           pid: string, st: EventState, kids: seq<(Dom.Node, Line)>)
    requires d.body == x + [a] + y && Dom.NoDup(d.body) && pid in st.last && st.last[pid] == a
    requires forall i :: 0 <= i < |kids| ==> !Parks(kids[i].1) && Js.Truthy(EProp(kids[i].1.event, "parent_id"))
                                             && Js.ToText(EProp(kids[i].1.event, "parent_id")) == pid
    requires forall i :: 0 <= i < |kids| ==> !Dom.Attached(d, kids[i].0)
    requires forall i, j :: 0 <= i < j < |kids| ==> kids[i].0 != kids[j].0
    ensures var p := PlaceKids(d, st, kids);
      p.doc.body == x + [a] + KidNodes(kids) + y
      && p.state == st.(last := st.last[pid := if kids == [] then a else kids[|kids| - 1].0])
      && p.doc.head == d.head
  {
    if kids == [] {
      assert st.last[pid := a] == st.last;
    } else {
      var init := kids[..|kids| - 1];
      var k := kids[|kids| - 1];
      ChildrenInOrder(d, x, a, y, pid, st, init);
      var p := PlaceKids(d, st, init);
      var before := [a] + KidNodes(init);
      var anchor := before[|before| - 1];
      var u := x + before[..|before| - 1];
      KidsOutside(d, x, a, y, init, k.0);
      Regroup(x, a, KidNodes(init), k.0, y);
      ChildAfterAnchor(p.doc, u, anchor, y, k.0, k.1, p.state);
      KidNodesSnoc(kids);
    }
  }

  lemma Regroup(x: seq<Dom.Node>, a: Dom.Node, ks: seq<Dom.Node>, n: Dom.Node, y: seq<Dom.Node>)
    ensures var before := [a] + ks;
      var u := x + before[..|before| - 1];
      x + [a] + ks + y == u + [before[|before| - 1]] + y
      && u + [before[|before| - 1]] + [n] + y == x + [a] + (ks + [n]) + y
  {
    var before := [a] + ks;
    assert before == before[..|before| - 1] + [before[|before| - 1]];
  }

  function KidNodes(kids: seq<(Dom.Node, Line)>): (r: seq<Dom.Node>)
    ensures |r| == |kids| && forall i :: 0 <= i < |kids| ==> r[i] == kids[i].0
  {
    seq(|kids|, i requires 0 <= i < |kids| => kids[i].0)
  }

  lemma KidNodesSnoc(kids: seq<(Dom.Node, Line)>)
    requires kids != []
    ensures KidNodes(kids) == KidNodes(kids[..|kids| - 1]) + [kids[|kids| - 1].0]
  {
    var r, q := KidNodes(kids), KidNodes(kids[..|kids| - 1]) + [kids[|kids| - 1].0];
    assert |r| == |q|;
    forall i | 0 <= i < |r|
      ensures r[i] == q[i]
    {
      if i < |kids| - 1 {
        assert q[i] == kids[..|kids| - 1][i].0;
      }
    }
  }

  /** The corrected `place_row` for each child in turn. */
  function PlaceKids(d: Dom.Doc, st: EventState, kids: seq<(Dom.Node, Line)>): FieldTable.Placement<EventState>
    decreases |kids|
  {
    if kids == [] then FieldTable.Placement(FieldTable.Placed, d, st)
    else
      var p := PlaceKids(d, st, kids[..|kids| - 1]);
      var k := kids[|kids| - 1];
      PlaceRowFixed(p.doc, k.0, k.1, p.state)
  }

  /** The anchor of the next child is not in front of itself, the next child
      is nowhere yet. */
  lemma KidsOutside(d: Dom.Doc, x: seq<Dom.Node>, a: Dom.Node, y: seq<Dom.Node>,
                    kids: seq<(Dom.Node, Line)>, n: Dom.Node)
    requires d.body == x + [a] + y && Dom.NoDup(d.body)
    requires forall i :: 0 <= i < |kids| ==> !Dom.Attached(d, kids[i].0)
    requires forall i, j :: 0 <= i < j < |kids| ==> kids[i].0 != kids[j].0
    requires !Dom.Attached(d, n) && forall i :: 0 <= i < |kids| ==> kids[i].0 != n
    ensures var before := [a] + KidNodes(kids);
      before[|before| - 1] !in x + before[..|before| - 1] && n !in x + before + y
  {
    var before := [a] + KidNodes(kids);
    var s := x + before[..|before| - 1];
    forall i | 0 <= i < |s| ensures s[i] != before[|before| - 1] {
      if i < |x| {
        assert d.body[i] == x[i] && d.body[|x|] == a;
        if |kids| > 0 {
          assert before[|before| - 1] == kids[|kids| - 1].0;
          assert x[i] in d.body;
        }
      } else if |kids| > 0 {
        assert s[i] == before[i - |x|];
        if i - |x| > 0 {
          assert before[i - |x|] == kids[i - |x| - 1].0;
        } else {
          assert a in d.body;
        }
      }
    }
    assert n !in d.body;
    forall i | 0 <= i < |before| ensures before[i] != n {
      if i > 0 { assert before[i] == kids[i - 1].0; }
      else { assert a in d.body; }
    }
  }

  // -----------------------------------------------------------------------
  // Tag filters

  /** `build_controls`: a finished job starts with the chatty tags hidden. */
  function InitiallyHidden(job: FieldTable.Record): (r: set<string>)
    ensures r != {} <==> !(Js.LooseEqualsString(FieldTable.Prop(job, "status"), "running")
                           || Js.LooseEqualsString(FieldTable.Prop(job, "status"), "pending"))
  {
    if !(Js.LooseEqualsString(FieldTable.Prop(job, "status"), "running")
         || Js.LooseEqualsString(FieldTable.Prop(job, "status"), "pending"))
    then {"PASS", "PLAN", "HARNESS", "STDOUT"}
    else {}
  }

  /** The classes and attribute `modify_row` gives every line row. */
  function MarkRow(d: Dom.Doc, n: Dom.Node, x: Line): (r: Dom.Doc)
    ensures r.head == d.head && r.body == d.body
    ensures Dom.ClassesOf(r, n) == Dom.ClassesOf(d, n) + {"event_line", "facet_" + Js.ToText(x.facet),
                                                          "tag_" + CleanTag(Js.ToText(x.tag))}
    ensures var id := EProp(x.event, "event_id");
      Dom.Attr(r, n, "data-event-id") == if Js.IsNullish(id) then (if id.Null? then Js.None else Dom.Attr(d, n, "data-event-id"))
                                          else Js.Some(Js.ToText(id))
  {
    var d1 := Dom.AddClasses(d, n, ["event_line", "facet_" + Js.ToText(x.facet), "tag_" + CleanTag(Js.ToText(x.tag))]);
    Dom.AttrValue(d1, n, "data-event-id", EProp(x.event, "event_id"))
  }

  /** A filter click's effect on the rows a corrected handler would have:
      every row of the tag gets or loses `hidden_row`. */
  function ShowTag(d: Dom.Doc, ctag: string, on: bool): (r: Dom.Doc)
    ensures r.head == d.head && r.body == d.body
    ensures forall m :: Dom.HasClass(d, m, "tag_" + ctag) ==> (Dom.HasClass(r, m, "hidden_row") <==> !on)
    ensures forall m :: Dom.HasClass(d, m, "tag_" + ctag) ==>
              Dom.ClassesOf(r, m) - {"hidden_row"} == Dom.ClassesOf(d, m) - {"hidden_row"}
    ensures forall m :: !Dom.HasClass(d, m, "tag_" + ctag) ==> Dom.ClassesOf(r, m) == Dom.ClassesOf(d, m)
  {
    d.(classes := map m | m in d.classes ::
        if "tag_" + ctag in d.classes[m] then
          (if on then d.classes[m] - {"hidden_row"} else d.classes[m] + {"hidden_row"})
        else d.classes[m])
  }

  /** The filter controls: `filters.seen`, `filters.state`, `filters.hide`
      and the filter list, with the filters marked `off`. */
  class Controls {
    const preHidden: set<string>
    var seen: set<string>
    var state: map<string, bool>
    var filters: seq<string>
    var off: set<string>

    /** Each seen tag has one filter, the list is sorted by text, and a
        filter is `off` exactly while its tag's rows are hidden. */
    predicate Valid()
      reads this
    {
      Js.StrictlySorted(filters)
      && (forall t :: t in filters ==> t in seen)
      && (forall t :: t in seen ==> t in filters)
      && state.Keys == seen
      && (forall t :: t in seen ==> (t in off <==> !state[t]))
      && off <= seen
    }

    /** `build_controls(run, job)` */
    constructor (job: FieldTable.Record)
      ensures Valid() && preHidden == InitiallyHidden(job)
      ensures seen == {} && filters == []
    {
      preHidden := InitiallyHidden(job);
      seen := {};
      state := map[];
      filters := [];
      off := {};
    }

    /** The filter part of `modify_row`: a tag seen for the first time gets
        its state (off when pre-hidden) and a filter at its sorted place;
        the row is hidden iff the tag's state is off. */
    method Register(tag: string) returns (hidden: bool)
      requires Valid()
      modifies this
      ensures Valid()
      ensures seen == old(seen) + {tag}
      ensures tag in old(seen) ==> filters == old(filters) && state == old(state) && off == old(off)
      ensures tag !in old(seen) ==>
        filters == Js.InsertAt(old(filters), Js.InsertionPoint(old(filters), tag), tag)
        && state == old(state)[tag := tag !in preHidden]
        && off == old(off) + (if tag in preHidden then {tag} else {})
      ensures hidden <==> !state[tag]
    {
      if tag !in seen {
        var k := 0;
        var added := false;
        while k < |filters| && !added
          invariant 0 <= k <= |filters|
          invariant forall i :: 0 <= i < k ==> !Js.StrLess(tag, filters[i])
          invariant added ==> k < |filters| && Js.StrLess(tag, filters[k])
          decreases |filters| - k + (if added then 0 else 1)
        {
          if Js.StrLess(tag, filters[k]) {
            added := true;
          } else {
            k := k + 1;
          }
        }
        Js.InsertionPointIs(filters, tag, k);
        Js.InsertKeepsSorted(filters, tag);
        ghost var f0 := filters;
        filters := Js.InsertAt(filters, k, tag);
        assert forall t :: t in filters <==> t in f0 || t == tag by {
          assert filters == f0[..k] + [tag] + f0[k..] && f0 == f0[..k] + f0[k..];
        }
        state := state[tag := tag !in preHidden];
        seen := seen + {tag};
        if tag in preHidden {
          off := off + {tag};
        }
      }
      hidden := !state[tag];
    }

    /** A click on a seen tag's filter flips its state and its `off` mark. */
    method Click(tag: string)
      requires Valid() && tag in seen
      modifies this
      ensures Valid() && seen == old(seen) && filters == old(filters)
      ensures state == old(state)[tag := !old(state)[tag]]
    {
      if state[tag] {
        state := state[tag := false];
        off := off + {tag};
      } else {
        state := state[tag := true];
        off := off - {tag};
      }
    }
  }

  /** `modify_row(row, item, table, controls)`: the row's marks, then the
      filter registry; the row gets `hidden_row` iff its tag is off. */
  method ModifyRow(c: Controls, d: Dom.Doc, n: Dom.Node, x: Line) returns (r: Dom.Doc)
    requires c.Valid()
    modifies c
    ensures c.Valid() && c.seen == old(c.seen) + {Js.ToText(x.tag)}
    ensures r.head == d.head && r.body == d.body
    ensures Dom.HasClass(r, n, "hidden_row") <==> !c.state[Js.ToText(x.tag)] || Dom.HasClass(d, n, "hidden_row")
    ensures Dom.HasClass(r, n, "tag_" + CleanTag(Js.ToText(x.tag))) && Dom.HasClass(r, n, "event_line")
    ensures r == if c.state[Js.ToText(x.tag)] then MarkRow(d, n, x) else Dom.AddClass(MarkRow(d, n, x), n, "hidden_row")
    ensures Js.ToText(x.tag) in old(c.seen) ==>
      c.filters == old(c.filters) && c.state == old(c.state) && c.off == old(c.off)
    ensures Js.ToText(x.tag) !in old(c.seen) ==>
      c.filters == Js.InsertAt(old(c.filters), Js.InsertionPoint(old(c.filters), Js.ToText(x.tag)), Js.ToText(x.tag))
      && c.state == old(c.state)[Js.ToText(x.tag) := Js.ToText(x.tag) !in c.preHidden]
      && c.off == old(c.off) + (if Js.ToText(x.tag) in c.preHidden then {Js.ToText(x.tag)} else {})
  {
    r := MarkRow(d, n, x);
    assert ("facet_" + Js.ToText(x.facet))[0] == 'f' && ("tag_" + CleanTag(Js.ToText(x.tag)))[0] == 't';
    assert "hidden_row"[0] == 'h';
    var hidden := c.Register(Js.ToText(x.tag));
    if hidden {
      r := Dom.AddClass(r, n, "hidden_row");
    }
  }

  /** As written, the click handler reaches `table.table.find` with the
      `table` argument the engine never passes, and throws after flipping
      the filter: the rows keep their visibility. */
  function ClickRows(d: Dom.Doc, ctag: string, on: bool): Dom.Doc {
    d
  }

  /** A row of a tag that was just switched off stays visible. */
  lemma ClickLeavesRowsShown(d: Dom.Doc, m: Dom.Node, ctag: string)
    requires Dom.HasClass(d, m, "tag_" + ctag) && !Dom.HasClass(d, m, "hidden_row")
    ensures !Dom.HasClass(ClickRows(d, ctag, false), m, "hidden_row")
    ensures Dom.HasClass(ShowTag(d, ctag, false), m, "hidden_row")
  {
  }

  // -----------------------------------------------------------------------
  // Message cells

  /** A test table attached to a line: header names, rows of values. */
  datatype TableData = TableData(header: seq<string>, rows: seq<seq<Js.Value>>)

  datatype GridCell = GridCell(cls: string, text: string)

  /** What `message_inner_builder` puts into a message cell: the message
      as preformatted text, a grid, or nothing when a row is wider than
      the header (`data.header[y].toLowerCase()` throws). */
  datatype Inner = Pre(text: string) | Grid(header: seq<string>, rows: seq<seq<GridCell>>) | Thrown

  function Lower(s: string): (r: string)
    ensures |r| == |s|
  {
    seq(|s|, i requires 0 <= i < |s| => if 'A' <= s[i] <= 'Z' then (s[i] as int + 32) as char else s[i])
  }

  predicate Fits(t: TableData) {
    forall x :: 0 <= x < |t.rows| ==> |t.rows[x]| <= |t.header|
  }

  method MessageInner(message: Js.Value, table: Js.Option<TableData>) returns (r: Inner)
    ensures table.None? ==> r == Pre(FieldTable.CellText(message))
    ensures table.Some? ==> (r.Thrown? <==> !Fits(table.value))
    ensures r.Grid? ==> (table.Some? && r.header == table.value.header && |r.rows| == |table.value.rows|
      && forall x :: 0 <= x < |r.rows| ==> (|r.rows[x]| == |table.value.rows[x]|
           && forall y :: 0 <= y < |r.rows[x]| ==>
                r.rows[x][y] == GridCell(Lower(table.value.header[y]), FieldTable.CellText(table.value.rows[x][y]))))
  {
    if table.None? {
      return Pre(FieldTable.CellText(message));
    }
    var data := table.value;
    var rows: seq<seq<GridCell>> := [];
    var x := 0;
    while x < |data.rows|
      invariant 0 <= x <= |data.rows| && |rows| == x
      invariant forall i :: 0 <= i < x ==> |data.rows[i]| <= |data.header|
      invariant forall i :: 0 <= i < x ==> (|rows[i]| == |data.rows[i]|
                  && forall y :: 0 <= y < |rows[i]| ==>
                       rows[i][y] == GridCell(Lower(data.header[y]), FieldTable.CellText(data.rows[i][y])))
    {
      var row: seq<GridCell> := [];
      var y := 0;
      while y < |data.rows[x]|
        invariant 0 <= y <= |data.rows[x]| && |row| == y && y <= |data.header|
        invariant forall j :: 0 <= j < y ==> row[j] == GridCell(Lower(data.header[j]), FieldTable.CellText(data.rows[x][j]))
      {
        if y >= |data.header| {
          return Thrown;
        }
        row := row + [GridCell(Lower(data.header[y]), FieldTable.CellText(data.rows[x][y]))];
        y := y + 1;
      }
      rows := rows + [row];
      x := x + 1;
    }
    return Grid(data.header, rows);
  }
}
