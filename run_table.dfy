/** The run table (`t2hui.runtable`): runs are kept newest first by
    comparing each run's ordinal with the biggest one seen; `modify_row`
    styles a run by its counts and status, the count builders render the
    counters, and `tool_builder` picks the tools a run offers. */
module RunTable {
  import Js
  import Dom
  import FieldTable

  type Record = FieldTable.Record

  function Prop(item: Record, k: string): Js.Value {
    FieldTable.Prop(item, k)
  }

  // -----------------------------------------------------------------------
  // Columns and URLs

  /** The static columns of `build_table`: the user column is added when
      users are shown or there is more than one user. */
  function ColumnNames(showUser: bool, singleUser: bool): (r: seq<string>)
    ensures |r| == if showUser || !singleUser then 9 else 8
    ensures r[..8] == ["tools", "concurrency", "passed", "failed", "retried", "project", "status", "duration"]
    ensures "user" in r <==> showUser || !singleUser
  {
    var fixedColumns := ["tools", "concurrency", "passed", "failed", "retried", "project", "status", "duration"];
    if showUser || !singleUser then fixedColumns + ["user"] else fixedColumns
  }

  /** `field_fetch`: where a run field's data is fetched from. */
  function FieldFetch(base: string, field: Js.Value): (r: string)
    ensures |r| >= |base| + 10 && r[..|base|] == base && r[|base|..|base| + 10] == "run/field/"
  {
    base + "run/field/" + Js.ToText(field)
  }

  /** `field_preprocess`: the field's `delete` URL. */
  function FieldDelete(base: string, field: Js.Value): string {
    base + "run/field/" + Js.ToText(field) + "/delete"
  }

  /** The delete URL is the fetch URL with `/delete` appended. */
  lemma DeleteExtendsFetch(base: string, field: Js.Value)
    ensures FieldDelete(base, field) == FieldFetch(base, field) + "/delete"
    ensures FieldDelete(base, field)[..|FieldFetch(base, field)|] == FieldFetch(base, field)
  {
  }

  // -----------------------------------------------------------------------
  // Placement

  /** `row_state`: the biggest run ordinal seen, undefined at first. */
  datatype RunState = RunState(biggest: Js.Value)

  function Ord(item: Record): Js.Value {
    Prop(item, "run_ord")
  }

  /** Whether `place_row` moves a run to the top: a biggest ordinal is set
      and the run's ordinal exceeds it. */
  predicate Newer(item: Record, st: RunState) {
    Js.Truthy(st.biggest) && Js.Greater(Ord(item), st.biggest)
  }

  /** The state `place_row` leaves: the first run (any run while the
      biggest ordinal is still falsy) and any newer run record their
      ordinal. */
  function NextState(item: Record, st: RunState): RunState {
    if !Js.Truthy(st.biggest) || Newer(item, st) then RunState(Ord(item)) else st
  }

  /** `place_row(row, item, table, state, existing)` as written.  The
      engine passes its jQuery `table` element, whose `body` property is
      undefined, so a newer run makes `table.body.prepend(row)` throw, after
      the new biggest ordinal has been recorded. */
  function PlaceRowWith(d: Dom.Doc, n: Dom.Node, item: Record, st: RunState, existing: Js.Value)
    : (p: FieldTable.Placement<RunState>)
    ensures Js.Truthy(existing) ==> p == FieldTable.Placement(FieldTable.Declined, d, st)
    ensures !Js.Truthy(existing) ==> p.state == NextState(item, st)
    ensures p.doc == d
  {
    if Js.Truthy(existing) then FieldTable.Placement(FieldTable.Declined, d, st)
    else if !Js.Truthy(st.biggest) then FieldTable.Placement(FieldTable.Declined, d, RunState(Ord(item)))
    else if Js.Greater(Ord(item), st.biggest) then FieldTable.Placement(FieldTable.Raised, d, RunState(Ord(item)))
    else FieldTable.Placement(FieldTable.Declined, d, st)
  }

  /** The engine calls `place_row` with four arguments, so `existing` is
      always undefined. */
  function PlaceRow(d: Dom.Doc, n: Dom.Node, item: Record, st: RunState): FieldTable.Placement<RunState> {
    PlaceRowWith(d, n, item, st, Js.Undefined)
  }

  /** As written, every newer run throws; all others are left to the
      engine's append. */
  lemma NewerRunRaises(d: Dom.Doc, n: Dom.Node, item: Record, st: RunState)
    ensures PlaceRow(d, n, item, st).outcome == FieldTable.Raised <==> Newer(item, st)
    ensures PlaceRow(d, n, item, st).outcome != FieldTable.Placed
  {
  }

  /** `place_row` with `state.body.prepend(row)`, the body the engine keeps
      in `row_state`: a newer run goes to the top. */
  function PlaceRowFixed(d: Dom.Doc, n: Dom.Node, item: Record, st: RunState): (p: FieldTable.Placement<RunState>)
    ensures p.state == NextState(item, st)
    ensures p.outcome == FieldTable.Placed <==> Newer(item, st)
    ensures p.outcome != FieldTable.Raised
  {
    if !Js.Truthy(st.biggest) then FieldTable.Placement(FieldTable.Declined, d, RunState(Ord(item)))
    else if Js.Greater(Ord(item), st.biggest) then FieldTable.Placement(FieldTable.Placed, Dom.Prepend(d, n), RunState(Ord(item)))
    else FieldTable.Placement(FieldTable.Declined, d, st)
  }

  /** The correction changes only the throwing branch: both record the
      same biggest ordinal, and they agree on every run that is not
      newer. */
  lemma PlaceRowAgrees(d: Dom.Doc, n: Dom.Node, item: Record, st: RunState)
    ensures PlaceRow(d, n, item, st).state == PlaceRowFixed(d, n, item, st).state
    ensures PlaceRow(d, n, item, st) == PlaceRowFixed(d, n, item, st) <==> !Newer(item, st)
  {
  }

  /** Through the engine, a newer run goes first in the body and any other
      run last; the classes `modify_row` adds do not move rows. */
  lemma NewerRunFirst<C>(spec: FieldTable.Spec<Record, C, RunState>, d: Dom.Doc, n: Dom.Node, item: Record, st: RunState)
    requires spec.placeRow == Js.Some(PlaceRowFixed) && spec.modifyRow == Js.Some(ModifyRow)
    requires !Dom.Attached(d, n)
    ensures var p := FieldTable.Place(spec, d, n, item, st);
      p.state == NextState(item, st)
      && p.doc.body == if Newer(item, st) then [n] + d.body else d.body + [n]
  {
  }

  /** Once set to a truthy value, the biggest ordinal only grows. */
  lemma BiggestGrows(item: Record, st: RunState)
    requires Js.Truthy(st.biggest)
    ensures NextState(item, st).biggest == st.biggest || Js.Greater(NextState(item, st).biggest, st.biggest)
  {
  }

  /** The state after a sequence of runs. */
  function Track(st: RunState, items: seq<Record>): RunState
    decreases |items|
  {
    if items == [] then st else NextState(items[|items| - 1], Track(st, items[..|items| - 1]))
  }

  function Max(s: seq<int>): int
    requires |s| > 0
  {
    if |s| == 1 then s[0] else var m := Max(s[..|s| - 1]); if s[|s| - 1] > m then s[|s| - 1] else m
  }

  /** For runs with positive numeric ordinals, the biggest ordinal is the
      largest one seen so far. */
  lemma {:induction false} TrackIsMax(items: seq<Record>, ords: seq<int>)
    requires |items| == |ords| > 0
    requires forall i :: 0 <= i < |items| ==> Ord(items[i]) == Js.Num(ords[i]) && ords[i] > 0
    ensures Track(RunState(Js.Undefined), items) == RunState(Js.Num(Max(ords)))
  {
    if |items| > 1 {
      TrackIsMax(items[..|items| - 1], ords[..|ords| - 1]);
    }
  }

  // -----------------------------------------------------------------------
  // Row styling

  /** The classes `modify_row` adds: a canceled run only `iffy_set`; any
      other run `error_set` when it has failures, else `success_set` when
      it has passes, then its status with `_set`. */
  function RunClasses(item: Record): seq<string> {
    if Js.LooseEqualsString(Prop(item, "status"), "canceled") then ["iffy_set"]
    else
      (if Js.GreaterThanNumber(Prop(item, "failed"), 0) then ["error_set"]
       else if Js.GreaterThanNumber(Prop(item, "passed"), 0) then ["success_set"]
       else [])
      + [Js.ToText(Prop(item, "status")) + "_set"]
  }

  function ModifyRow(d: Dom.Doc, n: Dom.Node, item: Record): (r: Dom.Doc)
    ensures r.head == d.head && r.body == d.body
    ensures Dom.ClassesOf(r, n) == Dom.ClassesOf(d, n) + set c | c in RunClasses(item)
    ensures forall m :: m != n ==> Dom.ClassesOf(r, m) == Dom.ClassesOf(d, m)
  {
    Dom.AddClasses(d, n, RunClasses(item))
  }

  /** A run that is not canceled always ends with its status class and
      carries at most one of `error_set` and `success_set`, `error_set`
      exactly when it has failures. */
  lemma RunClassesShape(item: Record)
    ensures Js.LooseEqualsString(Prop(item, "status"), "canceled") ==> RunClasses(item) == ["iffy_set"]
    ensures !Js.LooseEqualsString(Prop(item, "status"), "canceled") ==>
      var r := RunClasses(item);
      1 <= |r| <= 2 && r[|r| - 1] == Js.ToText(Prop(item, "status")) + "_set"
      && ("error_set" in r[..|r| - 1] <==> Js.GreaterThanNumber(Prop(item, "failed"), 0))
      && !("error_set" in r[..|r| - 1] && "success_set" in r[..|r| - 1])
  {
    if !Js.LooseEqualsString(Prop(item, "status"), "canceled") {
      var r := RunClasses(item);
      assert r[..|r| - 1] == if Js.GreaterThanNumber(Prop(item, "failed"), 0) then ["error_set"]
        else if Js.GreaterThanNumber(Prop(item, "passed"), 0) then ["success_set"] else [];
    }
  }

  // -----------------------------------------------------------------------
  // Count cells

  /** What a run table builder leaves in a cell. */
  datatype Shown = Empty | Text(text: string) | Div(cls: string, text: string) | Link(href: string, text: string)

  function BuildConcurrency(item: Record): Shown {
    var v := Prop(item, "concurrency");
    if Js.IsNullish(v) then Empty else Text("-j" + Js.ToText(v))
  }

  function BuildPass(item: Record): Shown {
    var v := Prop(item, "passed");
    if Js.IsNullish(v) then Empty else Text(Js.ToText(v))
  }

  /** `build_fail`: no failures in green, otherwise a link to the failures. */
  function BuildFail(base: string, item: Record): Shown {
    var v := Prop(item, "failed");
    if Js.IsNullish(v) then Empty
    else if Js.LooseEqualsNumber(v, 0) then Div("success_txt", Js.ToText(v))
    else Link(base + "failed/" + Js.ToText(Prop(item, "run_id")), Js.ToText(v))
  }

  function BuildRetry(item: Record): Shown {
    var v := Prop(item, "retried");
    if Js.IsNullish(v) then Empty
    else if Js.LooseEqualsNumber(v, 0) then Div("success_txt", Js.ToText(v))
    else Div("iffy_txt", Js.ToText(v))
  }

  /** A null or undefined count leaves its cell empty and any other value
      fills it; zero failures and zero retries show as success, and a
      concurrency reads back after its `-j`. */
  lemma CountCells(base: string, item: Record)
    ensures BuildConcurrency(item) == Empty <==> Js.IsNullish(Prop(item, "concurrency"))
    ensures BuildPass(item) == Empty <==> Js.IsNullish(Prop(item, "passed"))
    ensures BuildFail(base, item) == Empty <==> Js.IsNullish(Prop(item, "failed"))
    ensures BuildRetry(item) == Empty <==> Js.IsNullish(Prop(item, "retried"))
    ensures Prop(item, "failed") == Js.Num(0) ==> BuildFail(base, item) == Div("success_txt", "0")
    ensures Prop(item, "retried") == Js.Num(0) ==> BuildRetry(item) == Div("success_txt", "0")
    ensures Prop(item, "failed").Num? && Prop(item, "failed").n != 0 ==> BuildFail(base, item).Link?
    ensures Prop(item, "concurrency").Num? ==>
      var t := BuildConcurrency(item).text;
      t[..2] == "-j" && Js.ToNumber(Js.Str(t[2..])) == Js.Some(Prop(item, "concurrency").n)
  {
    assert Js.NatText(0) == "0";
    var v := Prop(item, "concurrency");
    if v.Num? {
      Js.IntTextRoundTrip(v.n);
      assert ("-j" + Js.IntText(v.n))[2..] == Js.IntText(v.n);
    }
  }

  // -----------------------------------------------------------------------
  // Tools

  /** The tools of a run, left to right. */
  datatype Tool = Pin(locked: bool) | Params | Download(active: bool) | Go(active: bool) | Cancel
                | Delete(active: bool) | Resources | Coverage(active: bool) | DeleteCoverage(active: bool) | ErrorTool

  predicate Live(item: Record) {
    Js.LooseEqualsString(Prop(item, "status"), "running") || Js.LooseEqualsString(Prop(item, "status"), "pending")
  }

  /** `tool_builder`: the tools appended in order, then the pin tool
      prepended. */
  function Tools(item: Record): seq<Tool> {
    var pinned := Js.LooseEqualsTrue(Prop(item, "pinned"));
    var covered := Js.Truthy(Prop(item, "has_coverage")) && Prop(item, "status") == Js.Str("complete");
    [Pin(pinned), Params, Download(Js.Truthy(Prop(item, "log_file_id"))),
     Go(!Js.LooseEqualsString(Prop(item, "status"), "broken")),
     if Live(item) then Cancel else Delete(!pinned),
     Resources, Coverage(covered), DeleteCoverage(covered)]
    + (if Js.Truthy(Prop(item, "error")) then [ErrorTool] else [])
  }

  /** Every run has the pin tool first, eight tools, and a ninth, the
      error tool, iff it has an error. */
  lemma ToolsCount(item: Record)
    ensures Tools(item)[0] == Pin(Js.LooseEqualsTrue(Prop(item, "pinned")))
    ensures |Tools(item)| == 8 + (if Js.Truthy(Prop(item, "error")) then 1 else 0)
    ensures ErrorTool in Tools(item) <==> Js.Truthy(Prop(item, "error"))
  {
    var t := Tools(item);
    assert forall i :: 0 <= i < 8 ==> t[i] != ErrorTool;
  }

  /** A running or pending run can be canceled and not deleted, any other
      run deleted (actively only when unpinned) and not canceled. */
  lemma ToolsLifecycle(item: Record)
    ensures Cancel in Tools(item) <==> Live(item)
    ensures Delete(true) in Tools(item) <==> !Live(item) && !Js.LooseEqualsTrue(Prop(item, "pinned"))
    ensures Delete(false) in Tools(item) <==> !Live(item) && Js.LooseEqualsTrue(Prop(item, "pinned"))
  {
    var t := Tools(item);
    assert t[4] == if Live(item) then Cancel else Delete(!Js.LooseEqualsTrue(Prop(item, "pinned")));
    assert forall i :: 0 <= i < |t| && i != 4 ==> !t[i].Cancel? && !t[i].Delete?;
  }

  /** The go link is inactive only for a broken run; coverage is active
      only for a complete run that has it. */
  lemma ToolsActive(item: Record)
    ensures Go(false) in Tools(item) <==> Js.LooseEqualsString(Prop(item, "status"), "broken")
    ensures Coverage(true) in Tools(item)
            <==> Js.Truthy(Prop(item, "has_coverage")) && Prop(item, "status") == Js.Str("complete")
  {
    var t := Tools(item);
    assert t[3] == Go(!Js.LooseEqualsString(Prop(item, "status"), "broken"));
    assert t[6] == Coverage(Js.Truthy(Prop(item, "has_coverage")) && Prop(item, "status") == Js.Str("complete"));
    assert forall i :: 0 <= i < |t| && i != 3 ==> !t[i].Go?;
    assert forall i :: 0 <= i < |t| && i != 6 ==> !t[i].Coverage?;
  }

  /** The pin and delete tools of one rendered run: `pinstate` flips on
      each successful pin request, and the delete tool is inactive exactly
      while the run is pinned. */
  class PinTool {
    var pinned: bool
    var deleteInactive: bool
    var deletesSent: nat

    predicate Valid()
      reads this
    {
      deleteInactive == pinned
    }

    constructor (item: Record)
      ensures Valid() && pinned == Js.LooseEqualsTrue(Prop(item, "pinned")) && deletesSent == 0
    {
      pinned := Js.LooseEqualsTrue(Prop(item, "pinned"));
      deleteInactive := Js.LooseEqualsTrue(Prop(item, "pinned"));
      deletesSent := 0;
    }

    /** The pin request succeeded. */
    method PinSuccess()
      requires Valid()
      modifies this
      ensures Valid() && pinned == !old(pinned) && deletesSent == old(deletesSent)
    {
      pinned := !pinned;
      if pinned {
        deleteInactive := true;
      } else {
        deleteInactive := false;
      }
    }

    /** A click on the delete tool: a pinned run refuses, otherwise the
        delete request goes out when the user confirms. */
    method DeleteClick(confirmed: bool) returns (sent: bool)
      requires Valid()
      modifies this
      ensures Valid() && pinned == old(pinned)
      ensures sent <==> !pinned && confirmed
      ensures deletesSent == old(deletesSent) + (if sent then 1 else 0)
    {
      if pinned {
        return false;
      }
      if !confirmed {
        return false;
      }
      deletesSent := deletesSent + 1;
      return true;
    }
  }
}
