/** The dashboard (`t2hui.dashboard`): a run table that redraws pending
    and running runs, styles rows by their counts and status, and a pager
    whose buttons rebuild the table for another page. */
module Dashboard {
  import Js
  import FieldTable
  import Dom
  import JobTable

  type Record = FieldTable.Record

  function Prop(item: Record, k: string): Js.Value {
    FieldTable.Prop(item, k)
  }

  /** The columns of `build_table`: six fixed ones, `user` unless the
      server has a single user, and the `added` date column last. */
  function ColumnNames(singleUser: bool): (r: seq<string>)
    ensures |r| == if singleUser then 7 else 8
    ensures r[..6] == ["tools", "passed", "failed", "retried", "project", "status"]
    ensures r[|r| - 1] == "added"
    ensures "user" in r <==> !singleUser
  {
    var fixedColumns := ["tools", "passed", "failed", "retried", "project", "status"];
    (if singleUser then fixedColumns else fixedColumns + ["user"]) + ["added"]
  }

  /** `redraw_fetch` and `field_fetch`: the run's own URL. */
  function RunUri(base: string, runId: Js.Value): (r: string)
    ensures |r| >= |base| + 4 && r[..|base|] == base && r[|base|..|base| + 4] == "run/"
  {
    base + "run/" + Js.ToText(runId)
  }

  /** Two runs share a URL exactly when their ids print alike: run ids are
      UUID strings, so distinct runs are fetched from distinct URLs. */
  lemma RunUriDistinct(base: string, a: Js.Value, b: Js.Value)
    ensures RunUri(base, a) != RunUri(base, b) <==> Js.ToText(a) != Js.ToText(b)
  {
    var k := |base| + 4;
    assert RunUri(base, a)[k..] == Js.ToText(a);
    assert RunUri(base, b)[k..] == Js.ToText(b);
  }

  /** Distinct numeric run ids give distinct URLs: a number's text reads
      back as the number. */
  lemma RunUriInjective(base: string, a: int, b: int)
    ensures a != b ==> RunUri(base, Js.Num(a)) != RunUri(base, Js.Num(b))
  {
    if a != b && RunUri(base, Js.Num(a)) == RunUri(base, Js.Num(b)) {
      var u := base + "run/";
      assert Js.IntText(a) == RunUri(base, Js.Num(a))[|u|..];
      assert Js.IntText(b) == RunUri(base, Js.Num(b))[|u|..];
      Js.IntTextRoundTrip(a);
      Js.IntTextRoundTrip(b);
    }
  }

  /** `redraw_check` */
  predicate RedrawCheck(item: Record) {
    Js.LooseEqualsString(Prop(item, "status"), "pending") || Js.LooseEqualsString(Prop(item, "status"), "running")
  }

  /** Only pending and running runs are kept for redraw: for a status
      given as text, exactly those two. */
  lemma RedrawWhileLive(item: Record)
    requires Prop(item, "status").Str?
    ensures RedrawCheck(item) <==> Prop(item, "status").s in {"pending", "running"}
  {
  }

  /** The classes `modify_row` adds: `error_set` for a run with failures,
      else `success_set` for one with passes, then the status with `_set`. */
  function DashClasses(item: Record): seq<string> {
    (if Js.Truthy(Prop(item, "failed")) then ["error_set"]
     else if Js.Truthy(Prop(item, "passed")) then ["success_set"]
     else [])
    + [Js.ToText(Prop(item, "status")) + "_set"]
  }

  function ModifyRow(d: Dom.Doc, n: Dom.Node, item: Record): (r: Dom.Doc)
    ensures r.head == d.head && r.body == d.body
    ensures Dom.ClassesOf(r, n) == Dom.ClassesOf(d, n) + set c | c in DashClasses(item)
    ensures forall m :: m != n ==> Dom.ClassesOf(r, m) == Dom.ClassesOf(d, m)
  {
    Dom.AddClasses(d, n, DashClasses(item))
  }

  /** Every row ends with its status class; failures outrank passes, so at
      most one of `error_set` and `success_set` is added. */
  lemma DashClassesShape(item: Record)
    ensures var r := DashClasses(item);
      1 <= |r| <= 2 && r[|r| - 1] == Js.ToText(Prop(item, "status")) + "_set"
      && ("error_set" in r[..|r| - 1] <==> Js.Truthy(Prop(item, "failed")))
      && ("success_set" in r[..|r| - 1] <==> !Js.Truthy(Prop(item, "failed")) && Js.Truthy(Prop(item, "passed")))
  {
    var r := DashClasses(item);
    assert r[..|r| - 1] == if Js.Truthy(Prop(item, "failed")) then ["error_set"]
      else if Js.Truthy(Prop(item, "passed")) then ["success_set"] else [];
  }

  // -----------------------------------------------------------------------
  // Count cells

  datatype Shown = Empty | Text(text: string) | Div(cls: string, text: string)

  function BuildPass(item: Record): Shown {
    var v := Prop(item, "passed");
    if Js.IsNullish(v) then Empty else Text(Js.ToText(v))
  }

  function BuildFail(item: Record): Shown {
    var v := Prop(item, "failed");
    if Js.IsNullish(v) then Empty
    else if Js.LooseEqualsNumber(v, 0) then Div("success_txt", Js.ToText(v))
    else Text(Js.ToText(v))
  }

  function BuildRetry(item: Record): Shown {
    var v := Prop(item, "retried");
    if Js.IsNullish(v) then Empty
    else if Js.LooseEqualsNumber(v, 0) then Div("success_txt", Js.ToText(v))
    else Div("iffy_txt", Js.ToText(v))
  }

  /** Null and undefined leave a cell empty; a count equal to 0 (also
      `"0"`, `""` or `false`) is shown as a success, any other as text or in
      the iffy style. */
  lemma CountCells(item: Record)
    ensures BuildPass(item) == Empty <==> Js.IsNullish(Prop(item, "passed"))
    ensures BuildFail(item) == Empty <==> Js.IsNullish(Prop(item, "failed"))
    ensures BuildRetry(item) == Empty <==> Js.IsNullish(Prop(item, "retried"))
    ensures BuildFail(item).Div? <==> Js.LooseEqualsNumber(Prop(item, "failed"), 0)
    ensures BuildRetry(item) == Div("iffy_txt", Js.ToText(Prop(item, "retried")))
            <==> !Js.IsNullish(Prop(item, "retried")) && !Js.LooseEqualsNumber(Prop(item, "retried"), 0)
    ensures Prop(item, "failed") == Js.Str("") ==> BuildFail(item) == Div("success_txt", "")
  {
  }

  // -----------------------------------------------------------------------
  // Tools

  datatype Tool = Pin(locked: bool) | Params | Download | Go | ErrorTool

  /** `tool_builder`: the error tool replaces the go link. */
  function Tools(item: Record): seq<Tool> {
    [Pin(Js.Truthy(Prop(item, "pinned"))), Params, Download, if Js.Truthy(Prop(item, "error")) then ErrorTool else Go]
  }

  /** A run offers its error message exactly when it has one, and then no
      go link; the pin tool comes first. */
  lemma ErrorReplacesGo(item: Record)
    ensures ErrorTool in Tools(item) <==> Js.Truthy(Prop(item, "error"))
    ensures Go in Tools(item) <==> !Js.Truthy(Prop(item, "error"))
    ensures |Tools(item)| == 4 && Tools(item)[0] == Pin(Js.Truthy(Prop(item, "pinned")))
  {
    var t := Tools(item);
    assert t[3] == if Js.Truthy(Prop(item, "error")) then ErrorTool else Go;
  }

  /** The pin tool of a row: locked image and `unpin` title while the run
      is pinned; each successful pin request flips it. */
  class PinTool {
    var pinned: bool
    var title: string
    var image: string

    predicate Valid()
      reads this
    {
      title == (if pinned then "unpin" else "pin")
      && image == (if pinned then "/img/locked.png" else "/img/unlocked.png")
    }

    constructor (item: Record)
      ensures Valid() && pinned == Js.Truthy(Prop(item, "pinned"))
    {
      pinned := Js.Truthy(Prop(item, "pinned"));
      if Js.Truthy(Prop(item, "pinned")) {
        title := "unpin";
        image := "/img/locked.png";
      } else {
        title := "pin";
        image := "/img/unlocked.png";
      }
    }

    /** The pin request succeeded. */
    method Success()
      requires Valid()
      modifies this
      ensures Valid() && pinned == !old(pinned)
    {
      pinned := !pinned;
      if pinned {
        title := "unpin";
        image := "/img/locked.png";
      } else {
        title := "pin";
        image := "/img/unlocked.png";
      }
    }
  }

  // -----------------------------------------------------------------------
  // Pager

  /** The table URL of a page. */
  function PageUri(base: string, page: int, count: int): string {
    base + "runs/" + Js.IntText(page) + "/" + Js.IntText(count)
  }

  /** `build_controls(count)`: the page counter, the label showing it, the
      `hide` class of the previous button, and the URL of the table shown. */
  class Pager {
    const base: string
    const count: int
    var page: int
    var prevHidden: bool
    var shown: string
    var tableUri: string

    predicate Valid()
      reads this
    {
      prevHidden == (page < 2) && shown == Js.IntText(page) && tableUri == PageUri(base, page, count)
    }

    constructor (baseUri: string, perPage: int)
      ensures Valid() && page == 1 && base == baseUri && count == perPage
    {
      base := baseUri;
      count := perPage;
      page := 1;
      prevHidden := true;
      shown := "1";
      tableUri := PageUri(baseUri, 1, perPage);
    }

    /** The previous button: one page back, hidden again on page 1. */
    method Prev()
      requires Valid()
      modifies this
      ensures Valid() && page == old(page) - 1
    {
      page := page - 1;
      tableUri := PageUri(base, page, count);
      if page < 2 {
        prevHidden := true;
      }
      shown := Js.IntText(page);
    }

    /** The next button: one page on, the previous button shown from page 2. */
    method Next()
      requires Valid()
      modifies this
      ensures Valid() && page == old(page) + 1
    {
      page := page + 1;
      tableUri := PageUri(base, page, count);
      if page > 1 {
        prevHidden := false;
      }
      shown := Js.IntText(page);
    }
  }

  /** The label reads back as the page number, and different pages show
      different tables. */
  lemma PagerLabel(base: string, page: int, other: int, count: int)
    ensures Js.ToNumber(Js.Str(Js.IntText(page))) == Js.Some(page)
    ensures page != other ==> PageUri(base, page, count) != PageUri(base, other, count)
  {
    Js.IntTextRoundTrip(page);
    if page != other && PageUri(base, page, count) == PageUri(base, other, count) {
      var p, o, c := Js.IntText(page), Js.IntText(other), Js.IntText(count);
      var u := base + "runs/";
      assert u + p + "/" + c == u + o + "/" + c;
      assert p + "/" + c == o + "/" + c by {
        assert (u + p + "/" + c)[|u|..] == p + "/" + c;
        assert (u + o + "/" + c)[|u|..] == o + "/" + c;
      }
      SuffixCancel(p, o, c);
      Js.IntTextRoundTrip(other);
    }
  }

  /** Texts followed by the same suffix are equal when the results are. */
  lemma {:induction false} SuffixCancel(p: string, o: string, c: string)
    requires p + "/" + c == o + "/" + c
    ensures p == o
  {
    assert |p| == |o|;
    assert forall i :: 0 <= i < |p| ==> p[i] == (p + "/" + c)[i] && o[i] == (o + "/" + c)[i];
  }

  /** `t2hui.dashboard.field_builder` is a copy of the job table's
      `field_builder`: the last field with the name gives the data, and
      undefined comes back when no field has it. */
  method FieldBuilder(fields: seq<FieldTable.Field>, name: string) returns (it: Js.Value)
    ensures it == JobTable.DataOf(FieldTable.LastField(fields, name))
    ensures (forall i :: 0 <= i < |fields| ==> fields[i].name != name) ==> it == Js.Undefined
  {
    it := JobTable.FieldBuilder(fields, name);
  }
}
