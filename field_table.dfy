/** `FieldTable`: a table whose rows are rendered from records, with static
    columns, dynamic columns discovered from the records' field lists, and
    postfix columns; placement and styling hooks; and a registry of rows that
    are re-fetched on an interval.  Nodes and class lists live in `Dom.Doc`;
    a row's cells are values held by the row. */
module FieldTable {
  import Js
  import Dom
  import Fetch

  /** One entry of `spec.columns` / `spec.postfix_columns`. */
  datatype Column<!T, C> = Column(name: string, cls: Js.Value, builder: Js.Option<T -> C>)

  /** One entry of a record's dynamic field list. */
  datatype Field = Field(name: string, details: Js.Value, raw: Js.Value, data: Js.Value, link: Js.Value)

  /** A record as the tables receive it: its properties, and the list under
      its `dynamic_field_attribute` (empty when that is unset or falsy). */
  datatype Record = Record(props: map<string, Js.Value>, fields: seq<Field>)

  /** `item[k]`: undefined for a missing property. */
  function Prop(r: Record, k: string): Js.Value {
    if k in r.props then r.props[k] else Js.Undefined
  }

  /** The cells of a dynamic field's inner tool row, left to right. */
  datatype Tool = LinkTool(href: string) | ViewerTool | TooltipTool(raw: string) | DetailsTool(html: string)

  datatype Content<C> = Blank | Text(text: string) | Built(built: C) | Tools(tools: seq<Tool>)

  /** A `<td>`: its class attribute, content, visibility and `data-order`. */
  datatype Cell<C> = Cell(cls: string, content: Content<C>, hidden: bool, order: Js.Option<string>)

  /** A rendered row: `row.columns`, `row.dynamic_columns`, `row.postfix_columns`. */
  datatype Row<T, C> = Row(node: Dom.Node, statics: seq<Cell<C>>, dynamics: seq<Cell<C>>,
                           postfix: seq<Cell<C>>, item: T, index: nat)

  /** The cells of a row in document order. */
  function Cells<T, C>(r: Row<T, C>): seq<Cell<C>> {
    r.statics + r.dynamics + r.postfix
  }

  datatype Outcome = Placed | Declined | Raised

  /** What a `place_row` hook did: returned true, returned false, or threw;
      in each case with the document and row state it left behind. */
  datatype Placement<S> = Placement(outcome: Outcome, doc: Dom.Doc, state: S)

  /** The part of a table's spec the engine reads. */
  datatype Spec<!T, C, !S> = Spec(
    columns: seq<Column<T, C>>,
    postfixColumns: seq<Column<T, C>>,
    get: (T, string) -> Js.Value,                        // item[name]
    fields: T -> seq<Field>,                             // item[dynamic_field_attribute], [] when unset or falsy
    expand: Js.Option<T -> seq<T>>,                      // expand_item
    modifyRow: Js.Option<(Dom.Doc, Dom.Node, T) -> Dom.Doc>,
    placeRow: Js.Option<(Dom.Doc, Dom.Node, T, S) -> Placement<S>>,
    redrawCheck: Js.Option<T -> bool>,                   // row_redraw_check
    redrawInterval: bool)                                // row_redraw_interval is truthy

  /** A key of `me.redraw`: a redraw id, or the key `undefined` that a
      redrawn row is stored under because `render_row` never sets
      `row.redraw_id`. */
  datatype RedrawKey = Id(id: nat) | Unset

  /** What the redraw registry keeps of a row. */
  datatype Entry<T> = Entry(index: nat, node: Dom.Node, item: T)

  /** A redraw fetch in flight: the key it was deleted from and the entry. */
  datatype Request<T> = Request(key: RedrawKey, entry: Entry<T>)

  // -----------------------------------------------------------------------
  // Cells

  /** `column_class`: "col-" and the column's class, or its name when the
      class is falsy. */
  function ColumnClass(cls: Js.Value, name: string): (r: string)
    ensures |r| >= 4 && r[..4] == "col-"
    ensures Js.Truthy(cls) ==> r[4..] == Js.ToText(cls)
    ensures !Js.Truthy(cls) ==> r[4..] == name
  {
    "col-" + (if Js.Truthy(cls) then Js.ToText(cls) else name)
  }

  /** The class of a dynamic column's cells: `column_class({name})`. */
  function DynClass(name: string): string {
    ColumnClass(Js.Undefined, name)
  }

  /** What `col.text(v)` leaves in a cell: jQuery treats `undefined` as a
      read and the DOM stores `null` as the empty text. */
  function CellText(v: Js.Value): (r: string)
    ensures Js.IsNullish(v) ==> r == ""
    ensures !Js.IsNullish(v) ==> r == Js.ToText(v)
  {
    if Js.IsNullish(v) then "" else Js.ToText(v)
  }

  /** `render_row_col`: the class attribute is the column's class as text
      (also "undefined"); a builder fills the cell, otherwise the cell's
      text is the item's field of the column's name. */
  function StaticCell<T, C>(c: Column<T, C>, get: (T, string) -> Js.Value, item: T): (r: Cell<C>)
    ensures r.cls == Js.ToText(c.cls) && !r.hidden && r.order == Js.None
    ensures c.builder.Some? ==> r.content == Built(c.builder.value(item))
    ensures c.builder.None? ==> r.content == Text(CellText(get(item, c.name)))
  {
    var content := match c.builder
      case Some(b) => Built(b(item))
      case None => Text(CellText(get(item, c.name)));
    Cell(Js.ToText(c.cls), content, false, Js.None)
  }

  function StaticCells<T, C>(cs: seq<Column<T, C>>, get: (T, string) -> Js.Value, item: T): (r: seq<Cell<C>>)
    ensures |r| == |cs|
    ensures forall i :: 0 <= i < |cs| ==> r[i] == StaticCell(cs[i], get, item)
  {
    seq(|cs|, i requires 0 <= i < |cs| => StaticCell(cs[i], get, item))
  }

  /** A tool's place in the tool row: each later step of
      `render_dynamic_col` prepends, so the last one added comes first. */
  function ToolRank(t: Tool): (k: nat)
    ensures k < 4
  {
    match t
    case LinkTool(_) => 0
    case ViewerTool => 1
    case TooltipTool(_) => 2
    case DetailsTool(_) => 3
  }

  /** `render_dynamic_col`'s tool row: details first, then the tooltip, the
      data viewer and the link, each prepended when present. */
  function ToolRow(f: Field): (r: seq<Tool>)
    ensures |r| >= 1 && r[|r| - 1] == DetailsTool(Js.ToText(f.details))
    ensures Js.Truthy(f.link) <==> r[0] == LinkTool(Js.ToText(f.link))
    ensures |r| == 1 + (if Js.Truthy(f.raw) then 1 else 0) + (if Js.Truthy(f.data) then 1 else 0)
                     + (if Js.Truthy(f.link) then 1 else 0)
  {
    var r0 := [DetailsTool(Js.ToText(f.details))];
    var r1 := if Js.Truthy(f.raw) then [TooltipTool(Js.ToText(f.raw))] + r0 else r0;
    var r2 := if Js.Truthy(f.data) then [ViewerTool] + r1 else r1;
    if Js.Truthy(f.link) then [LinkTool(Js.ToText(f.link))] + r2 else r2
  }

  /** Which tools the row holds and in what order: the tooltip iff `raw`
      is truthy, the viewer iff `data` is, the link iff `link` is, and the
      tools stand as link, viewer, tooltip, details, each at most once. */
  lemma ToolRowLayout(f: Field)
    ensures TooltipTool(Js.ToText(f.raw)) in ToolRow(f) <==> Js.Truthy(f.raw)
    ensures ViewerTool in ToolRow(f) <==> Js.Truthy(f.data)
    ensures LinkTool(Js.ToText(f.link)) in ToolRow(f) <==> Js.Truthy(f.link)
    ensures forall i, j :: 0 <= i < j < |ToolRow(f)| ==> ToolRank(ToolRow(f)[i]) < ToolRank(ToolRow(f)[j])
  {
  }

  /** The cell of dynamic column `name` in a new row: the column's field if
      the record has one, an empty placeholder otherwise; hidden when the
      column was closed. */
  function DynCell<C>(name: string, f: Js.Option<Field>, hidden: bool): Cell<C> {
    match f
    case None => Cell(DynClass(name), Blank, hidden, Js.None)
    case Some(f) =>
      Cell(DynClass(name), Tools(ToolRow(f)), hidden,
           if Js.Truthy(f.raw) then Js.Some(Js.ToText(f.raw)) else Js.None)
  }

  /** The cell `inject_dynamic_column` adds to every stored row. */
  function PadCell<C>(name: string): Cell<C> {
    Cell(DynClass(name), Blank, false, Js.None)
  }

  function PadCells<C>(names: seq<string>): (r: seq<Cell<C>>)
    ensures |r| == |names| && forall j :: 0 <= j < |names| ==> r[j] == PadCell(names[j])
  {
    seq(|names|, j requires 0 <= j < |names| => PadCell(names[j]))
  }

  /** The last field of `fs` named `name`: a later field of the same name
      replaces the cell of an earlier one. */
  function LastField(fs: seq<Field>, name: string): (r: Js.Option<Field>)
    ensures r.None? <==> forall i :: 0 <= i < |fs| ==> fs[i].name != name
    ensures r.Some? ==> r.value.name == name && r.value in fs
  {
    if fs == [] then Js.None
    else if fs[|fs| - 1].name == name then Js.Some(fs[|fs| - 1])
    else LastField(fs[..|fs| - 1], name)
  }

  /** The field found is the last one of its name: no later field repeats
      the name. */
  lemma {:induction false} LastFieldIsLast(fs: seq<Field>, name: string)
    requires LastField(fs, name).Some?
    ensures exists i :: 0 <= i < |fs| && fs[i] == LastField(fs, name).value
                        && forall j :: i < j < |fs| ==> fs[j].name != name
  {
    var n := |fs| - 1;
    if fs[n].name != name {
      var init := fs[..n];
      LastFieldIsLast(init, name);
      var i :| 0 <= i < |init| && init[i] == LastField(init, name).value
                && forall j :: i < j < |init| ==> init[j].name != name;
      assert fs[i] == init[i];
      forall j | i < j < |fs| ensures fs[j].name != name {
        if j < n {
          assert fs[j] == init[j];
        }
      }
    }
  }

  /** The dynamic cells of a new row: column `j` holds the last field named
      `dyn[j]`, or a placeholder. */
  function DynCells<C>(dyn: seq<string>, fs: seq<Field>, hidden: set<string>): (r: seq<Cell<C>>)
    ensures |r| == |dyn|
    ensures forall j :: 0 <= j < |dyn| ==> r[j] == DynCell(dyn[j], LastField(fs, dyn[j]), dyn[j] in hidden)
  {
    seq(|dyn|, j requires 0 <= j < |dyn| => DynCell(dyn[j], LastField(fs, dyn[j]), dyn[j] in hidden))
  }

  /** The dynamic column list after rendering records with fields `fs`:
      the names not known yet are appended in order of first appearance. */
  function Discover(known: seq<string>, fs: seq<Field>): seq<string>
  {
    if fs == [] then known
    else
      var d := Discover(known, fs[..|fs| - 1]);
      var n := fs[|fs| - 1].name;
      if n in d then d else d + [n]
  }

  // -----------------------------------------------------------------------
  // Properties of column discovery

  /** Discovery only appends: every known column keeps its index. */
  lemma {:induction false} DiscoverExtends(known: seq<string>, fs: seq<Field>)
    ensures known <= Discover(known, fs)
  {
    if fs != [] {
      DiscoverExtends(known, fs[..|fs| - 1]);
    }
  }

  /** A name is a column afterwards exactly when it was one before or some
      field carries it. */
  lemma {:induction false} DiscoverContains(known: seq<string>, fs: seq<Field>, n: string)
    ensures n in Discover(known, fs) <==> n in known || exists i :: 0 <= i < |fs| && fs[i].name == n
  {
    if fs != [] {
      var fs' := fs[..|fs| - 1];
      DiscoverContains(known, fs', n);
      if exists i :: 0 <= i < |fs'| && fs'[i].name == n {
        var i :| 0 <= i < |fs'| && fs'[i].name == n;
        assert fs[i].name == n;
      }
      if exists i :: 0 <= i < |fs| && fs[i].name == n {
        var i :| 0 <= i < |fs| && fs[i].name == n;
        if i < |fs| - 1 {
          assert fs'[i].name == n;
        }
      }
    }
  }

  /** Discovery never lists a column twice. */
  lemma {:induction false} DiscoverNoDup(known: seq<string>, fs: seq<Field>)
    requires NoDup(known)
    ensures NoDup(Discover(known, fs))
  {
    if fs != [] {
      DiscoverNoDup(known, fs[..|fs| - 1]);
    }
  }

  predicate NoDup(s: seq<string>) {
    forall i, j :: 0 <= i < j < |s| ==> s[i] != s[j]
  }

  /** Unless it was closed, a discovered column's cell in a new row holds
      the record's last field of that name; a column no field names keeps
      its placeholder. */
  lemma DynCellsMeaning<C>(dyn: seq<string>, fs: seq<Field>, hidden: set<string>, j: nat)
    requires j < |dyn|
    ensures var c: Cell<C> := DynCells(dyn, fs, hidden)[j];
      c.cls == "col-" + dyn[j] && (c.hidden <==> dyn[j] in hidden)
      && (c.content == Blank <==> forall i :: 0 <= i < |fs| ==> fs[i].name != dyn[j])
  {
  }


  // -----------------------------------------------------------------------
  // One field at a time

  lemma DiscoverStep(known: seq<string>, prefix: seq<Field>, f: Field)
    ensures var d := Discover(known, prefix);
      Discover(known, prefix + [f]) == if f.name in d then d else d + [f.name]
  {
    assert (prefix + [f])[..|prefix|] == prefix;
  }

  lemma LastFieldStep(prefix: seq<Field>, f: Field, n: string)
    ensures LastField(prefix + [f], n) == if f.name == n then Js.Some(f) else LastField(prefix, n)
  {
    assert (prefix + [f])[..|prefix|] == prefix;
  }

  /** The first field of a new name adds its column's cell at the end. */
  lemma DynCellsAdd<C>(dyn: seq<string>, prefix: seq<Field>, f: Field, hidden: set<string>)
    requires f.name !in dyn
    ensures DynCells<C>(dyn + [f.name], prefix + [f], hidden)
         == DynCells<C>(dyn, prefix, hidden) + [DynCell(f.name, Js.Some(f), f.name in hidden)]
  {
    var a := DynCells<C>(dyn + [f.name], prefix + [f], hidden);
    var b := DynCells<C>(dyn, prefix, hidden) + [DynCell(f.name, Js.Some(f), f.name in hidden)];
    forall j | 0 <= j < |a| ensures a[j] == b[j] {
      LastFieldStep(prefix, f, (dyn + [f.name])[j]);
    }
  }

  /** A field of a known name replaces that column's cell. */
  lemma DynCellsSet<C>(dyn: seq<string>, prefix: seq<Field>, f: Field, hidden: set<string>, j: nat)
    requires j < |dyn| && dyn[j] == f.name && NoDup(dyn)
    ensures DynCells<C>(dyn, prefix + [f], hidden)
         == DynCells<C>(dyn, prefix, hidden)[j := DynCell(f.name, Js.Some(f), f.name in hidden)]
  {
    var a := DynCells<C>(dyn, prefix + [f], hidden);
    var b := DynCells<C>(dyn, prefix, hidden)[j := DynCell(f.name, Js.Some(f), f.name in hidden)];
    forall i | 0 <= i < |a| ensures a[i] == b[i] {
      LastFieldStep(prefix, f, dyn[i]);
    }
  }

  // -----------------------------------------------------------------------
  // The engine's invariant, stated on values

  /** `dynamic_column_lookup` maps exactly the dynamic columns to their
      positions. */
  predicate LookupFits(dyn: seq<string>, lookup: map<string, nat>) {
    (forall n :: n in dyn ==> n in lookup)
    && (forall n :: n in lookup ==> lookup[n] < |dyn| && dyn[lookup[n]] == n)
  }

  /** Stored row `i` has index `i`, one cell per static and postfix column,
      and one cell per dynamic column, of that column's class. */
  predicate RowFits<T, C>(r: Row<T, C>, i: nat, nColumns: nat, nPostfix: nat, dyn: seq<string>) {
    r.index == i && |r.statics| == nColumns && |r.postfix| == nPostfix
    && |r.dynamics| == |dyn|
    && (forall j :: 0 <= j < |dyn| ==> r.dynamics[j].cls == DynClass(dyn[j]))
  }

  predicate RowsFit<T, C>(rows: seq<Row<T, C>>, nColumns: nat, nPostfix: nat, dyn: seq<string>) {
    forall i :: 0 <= i < |rows| ==> RowFits(rows[i], i, nColumns, nPostfix, dyn)
  }

  predicate KeyBelow(k: RedrawKey, next: nat) {
    k.Id? ==> k.id < next
  }

  /** Every registered or in-flight entry names a stored row; redraw ids
      are below the next id, request numbers below the next number. */
  predicate RegistryFits<T>(redraw: map<RedrawKey, Entry<T>>, inflight: map<nat, Request<T>>,
                            nRows: nat, redrawId: nat, nextRequest: nat) {
    (forall k :: k in redraw ==> KeyBelow(k, redrawId) && redraw[k].index < nRows)
    && (forall q :: q in inflight ==> q < nextRequest && KeyBelow(inflight[q].key, redrawId)
                                        && inflight[q].entry.index < nRows)
  }

  /** The row `inject_dynamic_column` leaves: one empty cell per new column. */
  function PadRow<T, C>(r: Row<T, C>, names: seq<string>): Row<T, C> {
    r.(dynamics := r.dynamics + PadCells(names))
  }

  function Pad<T, C>(rows: seq<Row<T, C>>, names: seq<string>): (r: seq<Row<T, C>>)
    ensures |r| == |rows| && forall i :: 0 <= i < |rows| ==> r[i] == PadRow(rows[i], names)
  {
    seq(|rows|, i requires 0 <= i < |rows| => PadRow(rows[i], names))
  }

  lemma PadCellsConcat<C>(a: seq<string>, b: seq<string>)
    ensures PadCells<C>(a + b) == PadCells<C>(a) + PadCells<C>(b)
  {
  }

  /** Padding for `a` and then for `b` is padding for `a + b`. */
  lemma PadPad<T, C>(rows: seq<Row<T, C>>, a: seq<string>, b: seq<string>)
    ensures Pad(Pad(rows, a), b) == Pad(rows, a + b)
  {
    var pa: seq<Cell<C>> := PadCells(a);
    var pb: seq<Cell<C>> := PadCells(b);
    PadCellsConcat<C>(a, b);
    var x := Pad(Pad(rows, a), b);
    var y := Pad(rows, a + b);
    forall i | 0 <= i < |rows|
      ensures x[i] == y[i]
    {
      var r := rows[i];
      var d := r.dynamics;
      assert x[i] == r.(dynamics := d + pa + pb);
      assert y[i] == r.(dynamics := d + (pa + pb));
      assert d + pa + pb == d + (pa + pb);
    }
  }

  lemma PadNothing<T, C>(rows: seq<Row<T, C>>)
    ensures Pad(rows, []) == rows
  {
    forall i | 0 <= i < |rows| ensures Pad(rows, [])[i] == rows[i] {
      assert PadCells<C>([]) == [];
      assert rows[i].dynamics + [] == rows[i].dynamics;
    }
  }

  /** Padding every stored row for new columns keeps them fitting the
      grown column list. */
  lemma PadKeepsRowsFit<T, C>(rows: seq<Row<T, C>>, nc: nat, np: nat, dyn: seq<string>, added: seq<string>)
    requires RowsFit(rows, nc, np, dyn)
    ensures RowsFit(Pad(rows, added), nc, np, dyn + added)
  {
    var padded := Pad(rows, added);
    forall i | 0 <= i < |rows|
      ensures RowFits(padded[i], i, nc, np, dyn + added)
    {
      assert RowFits(rows[i], i, nc, np, dyn);
      var p: seq<Cell<C>> := PadCells(added);
      forall j | 0 <= j < |dyn + added|
        ensures padded[i].dynamics[j].cls == DynClass((dyn + added)[j])
      {
        if j >= |dyn| {
          assert padded[i].dynamics[j] == p[j - |dyn|];
        }
      }
    }
  }

  /** A freshly rendered row fits the column list it was rendered against. */
  lemma RenderedFits<T, C>(r: Row<T, C>, i: nat, nc: nat, np: nat, dyn: seq<string>, fs: seq<Field>, hidden: set<string>)
    requires r.index == i && |r.statics| == nc && |r.postfix| == np
    requires r.dynamics == DynCells(dyn, fs, hidden)
    ensures RowFits(r, i, nc, np, dyn)
  {
    forall j | 0 <= j < |dyn| ensures r.dynamics[j].cls == DynClass(dyn[j]) {
      var f := LastField(fs, dyn[j]);
      assert r.dynamics[j] == DynCell(dyn[j], f, dyn[j] in hidden);
    }
  }

  lemma PushFits<T, C>(rows: seq<Row<T, C>>, row: Row<T, C>, nc: nat, np: nat, dyn: seq<string>)
    requires RowsFit(rows, nc, np, dyn) && RowFits(row, |rows|, nc, np, dyn)
    ensures RowsFit(rows + [row], nc, np, dyn)
  {
    forall i | 0 <= i < |rows| + 1 ensures RowFits((rows + [row])[i], i, nc, np, dyn) {
      if i < |rows| {
        assert (rows + [row])[i] == rows[i];
      }
    }
  }

  lemma ReplaceFits<T, C>(rows: seq<Row<T, C>>, i: nat, row: Row<T, C>, nc: nat, np: nat, dyn: seq<string>)
    requires RowsFit(rows, nc, np, dyn) && i < |rows| && RowFits(row, i, nc, np, dyn)
    ensures RowsFit(rows[i := row], nc, np, dyn)
  {
    var u := rows[i := row];
    forall k | 0 <= k < |rows| ensures RowFits(u[k], k, nc, np, dyn) {
      if k != i {
        assert RowFits(rows[k], k, nc, np, dyn);
      }
    }
  }

  /** Registering a row pushed at index `nRows` under the next redraw id. */
  lemma RegisterFits<T>(redraw: map<RedrawKey, Entry<T>>, inflight: map<nat, Request<T>>,
                        nRows: nat, redrawId: nat, nextRequest: nat, node: Dom.Node, item: T)
    requires RegistryFits(redraw, inflight, nRows, redrawId, nextRequest)
    ensures RegistryFits(redraw[Id(redrawId) := Entry(nRows, node, item)], inflight, nRows + 1, redrawId + 1, nextRequest)
    ensures Id(redrawId) !in redraw
  {
  }

  // -----------------------------------------------------------------------
  // The close-column handler on one row

  /** `td.<cls>` matches a cell whose class list has the word `cls`. */
  predicate HasClassWord(cellClass: string, cls: string) {
    cls in Fetch.Split(cellClass, ' ')
  }

  function HideMatching<C>(cells: seq<Cell<C>>, cls: string): (r: seq<Cell<C>>)
    ensures |r| == |cells|
    ensures forall j :: 0 <= j < |cells| ==>
      r[j] == cells[j].(hidden := cells[j].hidden || HasClassWord(cells[j].cls, cls))
  {
    seq(|cells|, j requires 0 <= j < |cells| =>
      cells[j].(hidden := cells[j].hidden || HasClassWord(cells[j].cls, cls)))
  }

  /** `row.find('td.<cls>').hide()` */
  function HideRow<T, C>(r: Row<T, C>, cls: string): Row<T, C> {
    r.(statics := HideMatching(r.statics, cls), dynamics := HideMatching(r.dynamics, cls),
       postfix := HideMatching(r.postfix, cls))
  }

  /** Hiding cells changes no cell's class and no row's shape. */
  lemma HideRowFits<T, C>(r: Row<T, C>, cls: string, i: nat, nc: nat, np: nat, dyn: seq<string>)
    requires RowFits(r, i, nc, np, dyn)
    ensures RowFits(HideRow(r, cls), i, nc, np, dyn)
  {
  }

  /** A dynamic column's own cells always match its selector. */
  lemma DynClassMatches(name: string)
    requires ' ' !in name
    ensures HasClassWord(DynClass(name), DynClass(name))
  {
    var c := DynClass(name);
    assert ' ' !in c by {
      assert c == "col-" + name;
      forall i | 0 <= i < |c| ensures c[i] != ' ' {
        if i >= 4 {
          assert c[i] == name[i - 4];
        }
      }
    }
    assert Fetch.Split(c, ' ') == [c];
  }

  // -----------------------------------------------------------------------
  // Placement

  /** The document after `modify_row_hook`. */
  function Modify<T, C, S>(spec: Spec<T, C, S>, d: Dom.Doc, node: Dom.Node, item: T): Dom.Doc {
    if spec.modifyRow.Some? then spec.modifyRow.value(d, node, item) else d
  }

  /** The modify hook, then `place_row`: without the hook, or when it
      returns false, the row is appended to the body. */
  function Place<T, C, S>(spec: Spec<T, C, S>, d: Dom.Doc, node: Dom.Node, item: T, state: S): (p: Placement<S>)
    ensures spec.placeRow.None? ==> p == Placement(Placed, Dom.Append(Modify(spec, d, node, item), node), state)
    ensures p.outcome == Declined ==> |p.doc.body| > 0 && p.doc.body[|p.doc.body| - 1] == node
  {
    var m := Modify(spec, d, node, item);
    match spec.placeRow
    case None => Placement(Placed, Dom.Append(m, node), state)
    case Some(place) =>
      var h := place(m, node, item, state);
      if h.outcome == Declined then Placement(Declined, Dom.Append(h.doc, node), h.state) else h
  }

  // -----------------------------------------------------------------------
  // The redraw interval

  /** One tick of the redraw interval on the registry's values: every
      registered entry leaves the registry and gets a request number of its
      own, above every number in use; requests in flight are untouched. */
  method Dispatch<T>(redraw: map<RedrawKey, Entry<T>>, inflight: map<nat, Request<T>>, next: nat)
    returns (sent: map<nat, Request<T>>, next': nat)
    requires forall q :: q in inflight ==> q < next
    ensures next <= next'
    ensures forall q :: q in sent ==> q < next'
    ensures forall q :: q in inflight ==> q in sent && sent[q] == inflight[q]
    ensures forall q :: q in sent && q < next ==> q in inflight
    ensures forall q :: q in sent && q >= next ==>
      sent[q].key in redraw && sent[q].entry == redraw[sent[q].key]
    ensures forall k :: k in redraw ==>
      exists q :: q in sent && q >= next && sent[q] == Request(k, redraw[k])
  {
    var rest := redraw;
    sent := inflight;
    next' := next;
    while rest != map[]
      invariant next <= next'
      invariant forall k :: k in rest ==> k in redraw && rest[k] == redraw[k]
      invariant forall q :: q in sent ==> q < next'
      invariant forall q :: q in inflight ==> q in sent && sent[q] == inflight[q]
      invariant forall q :: q in sent && q < next ==> q in inflight
      invariant forall q :: q in sent && q >= next ==>
        sent[q].key in redraw && sent[q].entry == redraw[sent[q].key]
      invariant forall k :: k in redraw ==> (k in rest ||
        exists q :: q in sent && q >= next && sent[q] == Request(k, redraw[k]))
      decreases |rest|
    {
      var k :| k in rest;
      ghost var before := sent;
      sent := sent[next' := Request(k, rest[k])];
      forall k' | k' in redraw && k' !in rest - {k}
        ensures exists q :: q in sent && q >= next && sent[q] == Request(k', redraw[k'])
      {
        if k' == k {
          assert sent[next'] == Request(k', redraw[k']);
        } else {
          var q :| q in before && q >= next && before[q] == Request(k', redraw[k']);
          assert sent[q] == before[q];
        }
      }
      next' := next' + 1;
      rest := rest - {k};
    }
  }

  // -----------------------------------------------------------------------
  // The engine

  class FieldTable<T, C, S> {
    const spec: Spec<T, C, S>

    var rows: seq<Row<T, C>>
    var dynamicColumns: seq<string>          // names, in header order
    var lookup: map<string, nat>             // dynamic_column_lookup
    var hidden: set<string>                  // hidden_columns
    var redraw: map<RedrawKey, Entry<T>>
    var redrawId: nat
    var inflight: map<nat, Request<T>>       // redraw fetches awaiting an answer
    var nextRequest: nat
    var rowState: S                          // row_state
    var doc: Dom.Doc
    var nextNode: Dom.Node                   // the next fresh `<tr>`

    predicate Valid()
      reads this
    {
      |spec.columns| > 0
      && LookupFits(dynamicColumns, lookup)
      && NoDup(dynamicColumns)
      && (forall n :: n in hidden ==> n in dynamicColumns)
      && RowsFit(rows, |spec.columns|, |spec.postfixColumns|, dynamicColumns)
      && RegistryFits(redraw, inflight, |rows|, redrawId, nextRequest)
      && (forall k :: k in redraw ==> spec.redrawCheck.Some?)
      && (forall q :: q in inflight ==> spec.redrawCheck.Some?)
      && (forall i :: 0 <= i < |rows| ==> rows[i].node < nextNode)
      && redrawId >= 1
    }

    /** `new FieldTable(spec)` followed by `render()`: `doc` holds the
        table's header row, `state` its row state. */
    constructor (spec: Spec<T, C, S>, doc: Dom.Doc, state: S, firstNode: Dom.Node)
      requires |spec.columns| > 0
      ensures Valid()
      ensures this.spec == spec && this.doc == doc && rowState == state && nextNode == firstNode
      ensures rows == [] && dynamicColumns == [] && lookup == map[] && hidden == {}
      ensures redraw == map[] && redrawId == 1 && inflight == map[]
    {
      this.spec := spec;
      rows := [];
      dynamicColumns := [];
      lookup := map[];
      hidden := {};
      redraw := map[];
      redrawId := 1;
      inflight := map[];
      nextRequest := 0;
      rowState := state;
      this.doc := doc;
      nextNode := firstNode;
    }

    /** The fields rendering a row's dynamic cells leaves alone. */
    ghost function Untouched(): (set<string>, map<RedrawKey, Entry<T>>, nat, map<nat, Request<T>>, nat, Dom.Doc, S, Dom.Node)
      reads this
    {
      (hidden, redraw, redrawId, inflight, nextRequest, doc, rowState, nextNode)
    }

    /** `find_dynamic_column`: the stored index of a known column, null
        (None) otherwise. */
    function FindDynamicColumn(name: string): (r: Js.Option<nat>)
      reads this
      requires Valid()
      ensures r.Some? <==> name in dynamicColumns
      ensures r.Some? ==> r.value < |dynamicColumns| && dynamicColumns[r.value] == name
    {
      if name in lookup then Js.Some(lookup[name]) else Js.None
    }

    /** `inject_dynamic_column`: the new column's index is the number of
        dynamic columns before the call; every stored row gets one empty
        cell for it. */
    method InjectDynamicColumn(name: string) returns (idx: nat)
      requires Valid() && name !in dynamicColumns
      modifies this
      ensures Valid()
      ensures idx == |old(dynamicColumns)| && dynamicColumns == old(dynamicColumns) + [name]
      ensures lookup == old(lookup)[name := idx]
      ensures rows == Pad(old(rows), [name])
      ensures hidden == old(hidden) && redraw == old(redraw) && redrawId == old(redrawId)
      ensures inflight == old(inflight) && nextRequest == old(nextRequest)
      ensures doc == old(doc) && rowState == old(rowState) && nextNode == old(nextNode)
    {
      var padded: seq<Row<T, C>> := [];
      var i := 0;
      while i < |rows|
        invariant 0 <= i <= |rows| && |padded| == i
        invariant forall k :: 0 <= k < i ==> padded[k] == PadRow(rows[k], [name])
      {
        padded := padded + [PadRow(rows[i], [name])];
        i := i + 1;
      }
      PadKeepsRowsFit(rows, |spec.columns|, |spec.postfixColumns|, dynamicColumns, [name]);
      assert padded == Pad(rows, [name]);
      idx := |dynamicColumns|;
      rows := padded;
      lookup := lookup[name := idx];
      dynamicColumns := dynamicColumns + [name];
    }

    /** One field of `render_row`'s loop: a field naming an unknown
        column injects it and fills its new cell; a field of a known name
        replaces that column's cell. */
    method RenderField(ghost prefix: seq<Field>, f: Field, cells: seq<Cell<C>>) returns (cells': seq<Cell<C>>)
      requires Valid() && cells == DynCells(dynamicColumns, prefix, hidden)
      modifies this
      ensures Valid()
      ensures dynamicColumns == if f.name in old(dynamicColumns) then old(dynamicColumns) else old(dynamicColumns) + [f.name]
      ensures cells' == DynCells(dynamicColumns, prefix + [f], hidden)
      ensures rows == if f.name in old(dynamicColumns) then old(rows) else Pad(old(rows), [f.name])
      ensures hidden == old(hidden) && redraw == old(redraw) && redrawId == old(redrawId)
      ensures inflight == old(inflight) && nextRequest == old(nextRequest)
      ensures doc == old(doc) && rowState == old(rowState) && nextNode == old(nextNode)
    {
      var found := FindDynamicColumn(f.name);
      if found.None? {
        DynCellsAdd<C>(dynamicColumns, prefix, f, hidden);
        var idx := InjectDynamicColumn(f.name);
        cells' := cells + [DynCell(f.name, Js.Some(f), f.name in hidden)];
      } else {
        DynCellsSet<C>(dynamicColumns, prefix, f, hidden, found.value);
        cells' := cells[found.value := DynCell(f.name, Js.Some(f), f.name in hidden)];
      }
    }

    /** The columns and rows after one field, stated on values: the new
        column, if any, is appended to both `added` and every row. */
    static lemma RenderStep(d0: seq<string>, rows0: seq<Row<T, C>>, added: seq<string>, prefix: seq<Field>,
                            f: Field, cols: seq<string>, rs: seq<Row<T, C>>,
                            cols': seq<string>, rs': seq<Row<T, C>>)
      requires cols == d0 + added && cols == Discover(d0, prefix) && rs == Pad(rows0, added)
      requires cols' == if f.name in cols then cols else cols + [f.name]
      requires rs' == if f.name in cols then rs else Pad(rs, [f.name])
      ensures var added' := if f.name in cols then added else added + [f.name];
        cols' == d0 + added' && cols' == Discover(d0, prefix + [f]) && rs' == Pad(rows0, added')
    {
      DiscoverStep(d0, prefix, f);
      if f.name !in cols {
        PadPad(rows0, added, [f.name]);
        assert d0 + (added + [f.name]) == (d0 + added) + [f.name];
      }
    }

    /** The state of `render_row`'s loop once the fields `prefix` are
        rendered into `dyn`: the columns they introduced, `added`, follow
        the ones known before, `d0`, and every row stored before, `rows0`,
        is padded for them. */
    ghost predicate Rendered(d0: seq<string>, rows0: seq<Row<T, C>>, added: seq<string>,
                             prefix: seq<Field>, dyn: seq<Cell<C>>)
      reads this
    {
      Valid()
      && dynamicColumns == d0 + added && dynamicColumns == Discover(d0, prefix)
      && dyn == DynCells(dynamicColumns, prefix, hidden)
      && rows == Pad(rows0, added)
    }

    /** One turn of `render_row`'s loop, stated over the fields before
        it and the field it renders. */
    method RenderFieldAt(ghost d0: seq<string>, ghost rows0: seq<Row<T, C>>, ghost added: seq<string>,
                         ghost prefix: seq<Field>, f: Field, dyn: seq<Cell<C>>)
      returns (dyn': seq<Cell<C>>, ghost added': seq<string>)
      requires Rendered(d0, rows0, added, prefix, dyn)
      modifies this
      ensures Rendered(d0, rows0, added', prefix + [f], dyn')
      ensures Untouched() == old(Untouched())
    {
      added' := if f.name in dynamicColumns then added else added + [f.name];
      ghost var cols, rs := dynamicColumns, rows;
      dyn' := RenderField(prefix, f, dyn);
      RenderStep(d0, rows0, added, prefix, f, cols, rs, dynamicColumns, rows);
    }

    /** `render_row`'s loop over the record's fields: the columns the
        fields introduce are appended in order of first appearance, every
        stored row is padded for them, and each column's cell holds the
        last field of its name. */
    method RenderFields(fs: seq<Field>) returns (dyn: seq<Cell<C>>)
      requires Valid()
      modifies this
      ensures Valid()
      ensures old(dynamicColumns) <= dynamicColumns
      ensures dynamicColumns == Discover(old(dynamicColumns), fs)
      ensures dyn == DynCells(dynamicColumns, fs, hidden)
      ensures rows == Pad(old(rows), dynamicColumns[|old(dynamicColumns)|..])
      ensures hidden == old(hidden) && redraw == old(redraw) && redrawId == old(redrawId)
      ensures inflight == old(inflight) && nextRequest == old(nextRequest)
      ensures doc == old(doc) && rowState == old(rowState) && nextNode == old(nextNode)
    {
      ghost var d0 := dynamicColumns;
      ghost var rows0 := rows;
      ghost var added: seq<string> := [];
      dyn := DynCells(dynamicColumns, [], hidden);
      PadNothing(rows0);
      var k := 0;
      while k < |fs|
        invariant 0 <= k <= |fs| && Rendered(d0, rows0, added, fs[..k], dyn)
        invariant Untouched() == old(Untouched())
      {
        assert fs[..k + 1] == fs[..k] + [fs[k]];
        dyn, added := RenderFieldAt(d0, rows0, added, fs[..k], fs[k], dyn);
        k := k + 1;
      }
      assert fs[..|fs|] == fs;
      assert dynamicColumns[|d0|..] == added;
    }

    /** `render_row`: a fresh row node with one cell per static column, one
        per dynamic column (the record's last field for it, or a
        placeholder) and one per postfix column. */
    method RenderRow(item: T) returns (row: Row<T, C>)
      requires Valid()
      modifies this
      ensures Valid()
      ensures old(dynamicColumns) <= dynamicColumns
      ensures dynamicColumns == Discover(old(dynamicColumns), spec.fields(item))
      ensures row == Row(old(nextNode), StaticCells(spec.columns, spec.get, item),
                         DynCells(dynamicColumns, spec.fields(item), hidden),
                         StaticCells(spec.postfixColumns, spec.get, item), item, 0)
      ensures nextNode == old(nextNode) + 1
      ensures rows == Pad(old(rows), dynamicColumns[|old(dynamicColumns)|..])
      ensures hidden == old(hidden) && redraw == old(redraw) && redrawId == old(redrawId)
      ensures inflight == old(inflight) && nextRequest == old(nextRequest)
      ensures doc == old(doc) && rowState == old(rowState)
    {
      var node := nextNode;
      var statics := StaticCells(spec.columns, spec.get, item);
      var dyn := RenderFields(spec.fields(item));
      var postfix := StaticCells(spec.postfixColumns, spec.get, item);
      nextNode := nextNode + 1;
      row := Row(node, statics, dyn, postfix, item, 0);
    }

    /** The end of `_render_item`: the row is registered for redraw under
        the next redraw id when `row_redraw_check` holds, and pushed with
        `index = rows.length`. */
    method Store(row: Row<T, C>, ghost fs: seq<Field>)
      requires Valid() && row.node < nextNode
      requires |row.statics| == |spec.columns| && |row.postfix| == |spec.postfixColumns|
      requires row.dynamics == DynCells(dynamicColumns, fs, hidden)
      modifies this
      ensures Valid()
      ensures rows == old(rows) + [row.(index := |old(rows)|)]
      ensures spec.redrawCheck.Some? && spec.redrawCheck.value(row.item) ==>
        redrawId == old(redrawId) + 1 && Id(old(redrawId)) !in old(redraw)
        && redraw == old(redraw)[Id(old(redrawId)) := Entry(|old(rows)|, row.node, row.item)]
      ensures !(spec.redrawCheck.Some? && spec.redrawCheck.value(row.item)) ==>
        redrawId == old(redrawId) && redraw == old(redraw)
      ensures dynamicColumns == old(dynamicColumns) && hidden == old(hidden) && inflight == old(inflight)
      ensures doc == old(doc) && rowState == old(rowState) && nextNode == old(nextNode)
    {
      var n := |rows|;
      var stored := row.(index := n);
      RenderedFits(stored, n, |spec.columns|, |spec.postfixColumns|, dynamicColumns, fs, hidden);
      PushFits(rows, stored, |spec.columns|, |spec.postfixColumns|, dynamicColumns);
      if spec.redrawCheck.Some? && spec.redrawCheck.value(row.item) {
        RegisterFits(redraw, inflight, n, redrawId, nextRequest, row.node, row.item);
        redraw := redraw[Id(redrawId) := Entry(n, row.node, row.item)];
        redrawId := redrawId + 1;
      }
      rows := rows + [stored];
    }

    /** `_render_item`: render, run the modify hook, let `place_row` place
        the row (appending it when there is no hook or it returns false),
        then register and store it.  A hook that throws ends the call before
        the registration and the push (`ok == false`). */
    method RenderOne(item: T) returns (ok: bool)
      requires Valid()
      modifies this
      ensures Valid()
      ensures old(dynamicColumns) <= dynamicColumns && hidden == old(hidden)
      ensures |rows| == |old(rows)| + (if ok then 1 else 0)
      ensures forall i :: 0 <= i < |old(rows)| ==> rows[i].item == old(rows)[i].item
      ensures ok ==> rows[|old(rows)|].item == item
      ensures var p := Place(spec, old(doc), old(nextNode), item, old(rowState));
        doc == p.doc && rowState == p.state && (ok <==> p.outcome != Raised)
      ensures !ok ==> rows == Pad(old(rows), dynamicColumns[|old(dynamicColumns)|..])
      ensures ok ==> rows == Pad(old(rows), dynamicColumns[|old(dynamicColumns)|..])
                            + [Row(old(nextNode), StaticCells(spec.columns, spec.get, item),
                                   DynCells(dynamicColumns, spec.fields(item), hidden),
                                   StaticCells(spec.postfixColumns, spec.get, item), item, |old(rows)|)]
      ensures ok && spec.redrawCheck.Some? && spec.redrawCheck.value(item) ==>
        redrawId == old(redrawId) + 1 && Id(old(redrawId)) !in old(redraw)
        && redraw == old(redraw)[Id(old(redrawId)) := Entry(|old(rows)|, old(nextNode), item)]
      ensures !(ok && spec.redrawCheck.Some? && spec.redrawCheck.value(item)) ==>
        redrawId == old(redrawId) && redraw == old(redraw)
    {
      var row := RenderRow(item);
      var p := Place(spec, doc, row.node, item, rowState);
      doc := p.doc;
      rowState := p.state;
      if p.outcome == Raised {
        return false;
      }
      Store(row, spec.fields(item));
      ok := true;
    }

    /** `render_item`: the records `expand_item` makes of the item, or the
        item itself, are rendered in list order; a throw stops the list. */
    method RenderItem(item: T) returns (ok: bool)
      requires Valid()
      modifies this
      ensures Valid()
      ensures old(dynamicColumns) <= dynamicColumns && hidden == old(hidden)
      ensures var list := if spec.expand.Some? then spec.expand.value(item) else [item];
        ok ==> |rows| == |old(rows)| + |list|
               && forall k :: 0 <= k < |list| ==> rows[|old(rows)| + k].item == list[k]
      ensures |old(rows)| <= |rows|
      ensures forall i :: 0 <= i < |old(rows)| ==> rows[i].item == old(rows)[i].item
    {
      var list := if spec.expand.Some? then spec.expand.value(item) else [item];
      var k := 0;
      ok := true;
      while k < |list|
        invariant 0 <= k <= |list| && Valid()
        invariant old(dynamicColumns) <= dynamicColumns && hidden == old(hidden)
        invariant |rows| == |old(rows)| + k
        invariant forall j :: 0 <= j < k ==> rows[|old(rows)| + j].item == list[j]
        invariant forall i :: 0 <= i < |old(rows)| ==> rows[i].item == old(rows)[i].item
      {
        var one := RenderOne(list[k]);
        if !one {
          ok := false;
          return;
        }
        k := k + 1;
      }
    }

    /** The close icon of dynamic column `name`: the column is recorded as
        hidden and every cell of an attached row whose class list has the
        column's class is hidden; detached rows keep their cells. */
    method CloseColumn(name: string)
      requires Valid() && name in dynamicColumns
      modifies this
      ensures Valid()
      ensures hidden == old(hidden) + {name}
      ensures |rows| == |old(rows)|
      ensures forall i :: 0 <= i < |rows| ==>
        rows[i] == if Dom.Attached(doc, rows[i].node) then HideRow(old(rows)[i], DynClass(name)) else old(rows)[i]
      ensures dynamicColumns == old(dynamicColumns) && lookup == old(lookup)
      ensures redraw == old(redraw) && redrawId == old(redrawId) && inflight == old(inflight)
      ensures doc == old(doc) && rowState == old(rowState) && nextNode == old(nextNode)
    {
      var cls := DynClass(name);
      var rs := rows;
      var out: seq<Row<T, C>> := [];
      var i := 0;
      while i < |rs|
        invariant 0 <= i <= |rs| && |out| == i
        invariant unchanged(this)
        invariant forall k :: 0 <= k < i ==>
          out[k] == if Dom.Attached(doc, rs[k].node) then HideRow(rs[k], cls) else rs[k]
        invariant RowsFit(out, |spec.columns|, |spec.postfixColumns|, dynamicColumns)
      {
        var r := rs[i];
        assert RowFits(r, i, |spec.columns|, |spec.postfixColumns|, dynamicColumns);
        if Dom.Attached(doc, r.node) {
          HideRowFits(r, cls, i, |spec.columns|, |spec.postfixColumns|, dynamicColumns);
          r := HideRow(r, cls);
        }
        PushFits(out, r, |spec.columns|, |spec.postfixColumns|, dynamicColumns);
        out := out + [r];
        i := i + 1;
      }
      rows := out;
      hidden := hidden + {name};
    }

    /** One tick of the redraw interval: every registered entry is deleted
        from the registry and a fetch for it is started. */
    method Tick()
      requires Valid() && spec.redrawInterval
      modifies this
      ensures Valid()
      ensures redraw == map[]
      ensures forall q :: q in old(inflight) ==> q in inflight && inflight[q] == old(inflight)[q]
      ensures forall q :: q in inflight && q !in old(inflight) ==>
        inflight[q].key in old(redraw) && inflight[q].entry == old(redraw)[inflight[q].key]
      ensures forall k :: k in old(redraw) ==>
        exists q :: q in inflight && q !in old(inflight) && inflight[q] == Request(k, old(redraw)[k])
      ensures rows == old(rows) && dynamicColumns == old(dynamicColumns) && hidden == old(hidden)
      ensures redrawId == old(redrawId) && doc == old(doc) && rowState == old(rowState)
    {
      var sent, next := Dispatch(redraw, inflight, nextRequest);
      forall k | k in redraw
        ensures exists q :: q in sent && q !in inflight && sent[q] == Request(k, redraw[k])
      {
        var q :| q in sent && q >= nextRequest && sent[q] == Request(k, redraw[k]);
      }
      inflight := sent;
      nextRequest := next;
      redraw := map[];
    }

    /** The redraw fetch `q` failed: its entry is restored under its key. */
    method RedrawError(q: nat)
      requires Valid() && q in inflight
      modifies this
      ensures Valid()
      ensures redraw == old(redraw)[old(inflight)[q].key := old(inflight)[q].entry]
      ensures inflight == old(inflight) - {q}
      ensures rows == old(rows) && dynamicColumns == old(dynamicColumns) && hidden == old(hidden)
      ensures redrawId == old(redrawId) && doc == old(doc) && rowState == old(rowState)
    {
      var r := inflight[q];
      redraw := redraw[r.key := r.entry];
      inflight := inflight - {q};
    }

    /** The end of a redraw: the modify hook runs on the new row, the row
        is registered again under the key `undefined` when it still needs
        redrawing, takes the old row's place in `rows`, and replaces the old
        row's node in the document, which is then removed. */
    method Swap(e: Entry<T>, row: Row<T, C>, ghost fs: seq<Field>)
      requires Valid() && e.index < |rows| && row.node < nextNode && spec.redrawCheck.Some?
      requires |row.statics| == |spec.columns| && |row.postfix| == |spec.postfixColumns|
      requires row.dynamics == DynCells(dynamicColumns, fs, hidden)
      modifies this
      ensures Valid()
      ensures rows == old(rows)[e.index := row.(index := e.index)]
      ensures if spec.redrawCheck.value(row.item) then redraw == old(redraw)[Unset := Entry(e.index, row.node, row.item)]
              else redraw == old(redraw)
      ensures doc == Dom.Detach(Dom.ReplaceWith(Modify(spec, old(doc), row.node, row.item), e.node, row.node), e.node)
      ensures dynamicColumns == old(dynamicColumns) && hidden == old(hidden) && inflight == old(inflight)
      ensures redrawId == old(redrawId) && rowState == old(rowState) && nextNode == old(nextNode)
    {
      var stored := row.(index := e.index);
      var d := Modify(spec, doc, row.node, row.item);
      if spec.redrawCheck.value(row.item) {
        redraw := redraw[Unset := Entry(e.index, row.node, row.item)];
      }
      RenderedFits(stored, e.index, |spec.columns|, |spec.postfixColumns|, dynamicColumns, fs, hidden);
      ReplaceFits(rows, e.index, stored, |spec.columns|, |spec.postfixColumns|, dynamicColumns);
      rows := rows[e.index := stored];
      d := Dom.ReplaceWith(d, e.node, row.node);
      doc := Dom.Detach(d, e.node);
    }

    /** The redraw fetch `q` answered `item`: the row is rendered again,
        keeps the old row's index and replaces it in `rows` and in the
        document.  When it still needs redrawing it is stored under the
        key `undefined`. */
    method RedrawSuccess(q: nat, item: T)
      requires Valid() && q in inflight
      modifies this
      ensures Valid()
      ensures old(dynamicColumns) <= dynamicColumns
      ensures var e := old(inflight)[q].entry;
        e.index < |rows| && |rows| == |old(rows)|
        && rows[e.index] == Row(old(nextNode), StaticCells(spec.columns, spec.get, item),
                                DynCells(dynamicColumns, spec.fields(item), hidden),
                                StaticCells(spec.postfixColumns, spec.get, item), item, e.index)
        && (forall i :: 0 <= i < |rows| && i != e.index ==>
              rows[i] == PadRow(old(rows)[i], dynamicColumns[|old(dynamicColumns)|..]))
      ensures var e := old(inflight)[q].entry;
        spec.redrawCheck.Some? &&
        (if spec.redrawCheck.value(item) then redraw == old(redraw)[Unset := Entry(e.index, old(nextNode), item)]
         else redraw == old(redraw))
      ensures inflight == old(inflight) - {q}
      ensures hidden == old(hidden)
      ensures var e := old(inflight)[q].entry;
        doc == Dom.Detach(Dom.ReplaceWith(Modify(spec, old(doc), old(nextNode), item), e.node, old(nextNode)), e.node)
    {
      var e := inflight[q].entry;
      inflight := inflight - {q};
      var row := RenderRow(item);
      Swap(e, row, spec.fields(item));
    }
  }
}
