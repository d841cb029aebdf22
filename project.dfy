/** The project statistics page (`t2hui.project_stats`): `reload` builds
    one request entry for every stat panel that is open, naming panels
    without an id with generated ids; the answers' pair tables and row
    tables are laid out here as values, a row table cut into show-more
    sets. */
module Project {
  import Js

  // -----------------------------------------------------------------------
  // The form

  /** `$('select#users option').first().val()`: undefined without options. */
  function FirstOption(options: seq<Js.Value>): Js.Value {
    if options == [] then Js.Undefined else options[0]
  }

  /** The users of the request: the owner is the first option, the other
      users every option after it, and a selection the select element's
      value (`selectValue`); another choice selects nobody. */
  method SelectUsers(sel: Js.Value, options: seq<Js.Value>, selectValue: seq<Js.Value>)
    returns (users: seq<Js.Value>)
    ensures sel == Js.Str("owner") ==> users == [FirstOption(options)]
    ensures sel == Js.Str("other") ==> users == if options == [] then [] else options[1..]
    ensures sel == Js.Str("select") ==> users == selectValue
    ensures sel !in {Js.Str("owner"), Js.Str("other"), Js.Str("select")} ==> users == []
  {
    users := [];
    if sel == Js.Str("owner") {
      users := [FirstOption(options)];
    } else if sel == Js.Str("other") {
      var first := false;
      for k := 0 to |options|
        invariant first <==> k > 0
        invariant users == if k == 0 then [] else options[1..k]
      {
        if !first {
          first := true;
        } else {
          users := users + [options[k]];
        }
      }
    } else if sel == Js.Str("select") {
      users := selectValue;
    }
  }

  /** The owner and the other users together are all the options, the
      owner first: no user is in both choices. */
  lemma OwnerAndOthers(options: seq<Js.Value>)
    requires options != []
    ensures [FirstOption(options)] + options[1..] == options
  {
  }

  /** The run range of the request: `n` from the form when limited to
      some runs, otherwise 0; the dates only for a date range. */
  datatype Range = Range(n: Js.Value, start: Js.Value, end: Js.Value)

  function RunRange(runSel: Js.Value, nInput: Js.Value, startInput: Js.Value, endInput: Js.Value): (r: Range)
    ensures r.n == Js.Num(0) || runSel == Js.Str("limited")
    ensures r.start != Js.Undefined || r.end != Js.Undefined ==> runSel == Js.Str("date")
  {
    if runSel == Js.Str("limited") then Range(nInput, Js.Undefined, Js.Undefined)
    else if runSel == Js.Str("date") then Range(Js.Num(0), startInput, endInput)
    else Range(Js.Num(0), Js.Undefined, Js.Undefined)
  }

  // -----------------------------------------------------------------------
  // Stat panels and the request

  /** What `reload` last did to a panel: asked for it (`Loading...` and
      class `running`), or emptied it because its set is closed. */
  datatype Shown = Untouched | Loading | Emptied

  /** A `div.stat`: its `loaded` class, its `data-stat-type`,
      `data-stat-n` and `id` attributes, whether its stats set (the
      grandparent) is `active`, and what reload did to it. */
  datatype StatDiv = StatDiv(loaded: bool, kind: Js.Value, n: Js.Value, id: Js.Value, active: bool, shown: Shown)

  datatype Req = Req(id: Js.Value, kind: Js.Value, n: Js.Value, users: seq<Js.Value>, start: Js.Value, end: Js.Value)

  function GenId(k: nat): string {
    "gen_id_" + Js.NatText(k)
  }

  /** A panel is looked at unless it is loaded and not everything is asked for. */
  predicate Visited(d: StatDiv, all: Js.Value) {
    !(d.loaded && !Js.Truthy(all))
  }

  /** A panel that gets a generated id. */
  predicate Named(d: StatDiv, all: Js.Value) {
    Visited(d, all) && !Js.Truthy(d.id)
  }

  /** A panel that enters the request. */
  predicate Asked(d: StatDiv, all: Js.Value) {
    Visited(d, all) && d.active
  }

  /** The request entry of a panel, with `n` defaulting to the form's. */
  function ReqOf(d: StatDiv, range: Range, users: seq<Js.Value>): Req {
    Req(d.id, d.kind, if Js.Truthy(d.n) then d.n else range.n, users, range.start, range.end)
  }

  /** One turn of the `each` loop: the panel afterwards, its request
      entries and the id counter afterwards. */
  function Visit(d: StatDiv, all: Js.Value, next: nat, range: Range, users: seq<Js.Value>): (StatDiv, seq<Req>, nat) {
    if !Visited(d, all) then (d, [], next)
    else
      var d' := if Js.Truthy(d.id) then d else d.(id := Js.Str(GenId(next)));
      var next' := if Js.Truthy(d.id) then next else next + 1;
      if d.active then (d'.(shown := Loading), [ReqOf(d', range, users)], next')
      else (d'.(shown := Emptied), [], next')
  }

  /** The `each` loop over the panels `ds`, from counter `next`. */
  function Walk(ds: seq<StatDiv>, all: Js.Value, next: nat, range: Range, users: seq<Js.Value>): (seq<StatDiv>, seq<Req>, nat) {
    if ds == [] then ([], [], next)
    else
      var w := Walk(ds[..|ds| - 1], all, next, range, users);
      var v := Visit(ds[|ds| - 1], all, w.2, range, users);
      (w.0 + [v.0], w.1 + v.1, v.2)
  }

  /** The counter value the `k`th panel gets its generated id from. */
  function IdsBefore(ds: seq<StatDiv>, all: Js.Value, k: nat): nat
    requires k <= |ds|
  {
    if k == 0 then 0 else IdsBefore(ds, all, k - 1) + if Named(ds[k - 1], all) then 1 else 0
  }

  /** The positions of the panels that enter the request, in order. */
  function AskedAt(ds: seq<StatDiv>, all: Js.Value): (ix: seq<nat>)
    ensures forall j :: 0 <= j < |ix| ==> ix[j] < |ds|
  {
    if ds == [] then []
    else AskedAt(ds[..|ds| - 1], all) + if Asked(ds[|ds| - 1], all) then [|ds| - 1] else []
  }

  /** The `each` callback on one panel, given the counter `id`. */
  method VisitPanel(d: StatDiv, all: Js.Value, id: nat, range: Range, users: seq<Js.Value>)
    returns (d': StatDiv, asked: seq<Req>, id': nat)
    ensures (d', asked, id') == Visit(d, all, id, range, users)
  {
    d', asked, id' := d, [], id;
    if d.loaded && !Js.Truthy(all) {
      return;
    }
    if !Js.Truthy(d.id) {
      d' := d'.(id := Js.Str(GenId(id')));
      id' := id' + 1;
    }
    if d.active {
      asked := [ReqOf(d', range, users)];
      d' := d'.(shown := Loading);
    } else {
      d' := d'.(shown := Emptied);
    }
  }

  /** The stat page: the global `id` counter and the panels. */
  class Stats {
    var nextId: nat
    var divs: seq<StatDiv>

    constructor (divs: seq<StatDiv>)
      ensures nextId == 1 && this.divs == divs
    {
      nextId := 1;
      this.divs := divs;
    }

    /** `reload(all)`, with the form already read into `range` and
        `users`: the panels are visited in order; the result is the request
        and the URL fetched, none for an empty request. */
    method Reload(all: Js.Value, project: string, range: Range, users: seq<Js.Value>)
      returns (request: seq<Req>, uri: Js.Option<string>)
      modifies this
      ensures (divs, request, nextId) == Walk(old(divs), all, old(nextId), range, users)
      ensures uri == if request == [] then Js.None else Js.Some("/project/" + project + "/stats")
    {
      ghost var ds := divs;
      var panels, id := divs, nextId;
      request := [];
      for k := 0 to |panels|
        invariant |panels| == |ds| && forall j :: k <= j < |ds| ==> panels[j] == ds[j]
        invariant panels[..k] == Walk(ds[..k], all, old(nextId), range, users).0
        invariant request == Walk(ds[..k], all, old(nextId), range, users).1
        invariant id == Walk(ds[..k], all, old(nextId), range, users).2
      {
        ghost var before := panels[..k];
        WalkSnoc(ds, k, all, old(nextId), range, users);
        var d, asked;
        d, asked, id := VisitPanel(panels[k], all, id, range, users);
        request := request + asked;
        panels := panels[k := d];
        assert panels[..k + 1] == before + [d];
      }
      assert ds[..|ds|] == ds && panels[..|panels|] == panels;
      divs, nextId := panels, id;
      uri := if |request| < 1 then Js.None else Js.Some("/project/" + project + "/stats");
    }
  }

  // -----------------------------------------------------------------------
  // What a reload does to the panels

  /** The loop over one more panel. */
  lemma WalkSnoc(ds: seq<StatDiv>, k: nat, all: Js.Value, next: nat, range: Range, users: seq<Js.Value>)
    requires k < |ds|
    ensures var w := Walk(ds[..k], all, next, range, users);
      var v := Visit(ds[k], all, w.2, range, users);
      Walk(ds[..k + 1], all, next, range, users) == (w.0 + [v.0], w.1 + v.1, v.2)
  {
    assert ds[..k + 1][..k] == ds[..k];
  }

  /** A panel skipped keeps everything; a visited one ends with an id: its
      own if it had one, else the generated id numbered by the panels named
      before it. */
  lemma {:induction false} WalkPanels(ds: seq<StatDiv>, all: Js.Value, next: nat, range: Range, users: seq<Js.Value>, k: nat)
    requires k < |ds|
    ensures var w := Walk(ds, all, next, range, users);
      |w.0| == |ds| && w.2 == next + IdsBefore(ds, all, |ds|)
      && (!Visited(ds[k], all) ==> w.0[k] == ds[k])
      && (Visited(ds[k], all) ==> w.0[k].shown == (if ds[k].active then Loading else Emptied)
                                  && w.0[k].loaded == ds[k].loaded && w.0[k].active == ds[k].active
                                  && w.0[k].kind == ds[k].kind && w.0[k].n == ds[k].n)
      && (Visited(ds[k], all) && Js.Truthy(ds[k].id) ==> w.0[k].id == ds[k].id)
      && (Named(ds[k], all) ==> w.0[k].id == Js.Str(GenId(next + IdsBefore(ds, all, k))))
    decreases |ds|
  {
    var p := ds[..|ds| - 1];
    WalkLength(p, all, next, range, users);
    IdsBeforePrefix(ds, all, |ds| - 1);
    if k < |ds| - 1 {
      WalkPanels(p, all, next, range, users, k);
      IdsBeforePrefix(ds, all, k);
      assert p[k] == ds[k];
    }
  }

  lemma {:induction false} WalkLength(ds: seq<StatDiv>, all: Js.Value, next: nat, range: Range, users: seq<Js.Value>)
    ensures var w := Walk(ds, all, next, range, users);
      |w.0| == |ds| && w.2 == next + IdsBefore(ds, all, |ds|)
    decreases |ds|
  {
    if ds != [] {
      var p := ds[..|ds| - 1];
      WalkLength(p, all, next, range, users);
      IdsBeforePrefix(ds, all, |ds| - 1);
    }
  }

  /** Counting named panels before `k` looks at the first `k` panels only. */
  lemma {:induction false} IdsBeforePrefix(ds: seq<StatDiv>, all: Js.Value, k: nat)
    requires k < |ds|
    ensures IdsBefore(ds[..|ds| - 1], all, k) == IdsBefore(ds, all, k)
  {
    if k > 0 {
      IdsBeforePrefix(ds, all, k - 1);
    }
  }

  /** The counter strictly grows from one named panel to the next. */
  lemma {:induction false} IdsBeforeGrows(ds: seq<StatDiv>, all: Js.Value, i: nat, j: nat)
    requires i < j <= |ds| && Named(ds[i], all)
    ensures IdsBefore(ds, all, i) < IdsBefore(ds, all, j)
    decreases j
  {
    if j > i + 1 {
      IdsBeforeGrows(ds, all, i, j - 1);
    }
  }

  /** Generated ids are unique: two panels named by one reload get
      different ids, and every later reload numbers from where the last
      one stopped. */
  lemma GeneratedIdsUnique(ds: seq<StatDiv>, all: Js.Value, next: nat, range: Range, users: seq<Js.Value>, i: nat, j: nat)
    requires i < j < |ds| && Named(ds[i], all) && Named(ds[j], all)
    ensures var w := Walk(ds, all, next, range, users);
      |w.0| == |ds| && w.0[i].id != w.0[j].id
      && next <= next + IdsBefore(ds, all, i) < w.2
  {
    WalkPanels(ds, all, next, range, users, i);
    WalkPanels(ds, all, next, range, users, j);
    IdsBeforeGrows(ds, all, i, j);
    IdsBeforeGrows(ds, all, i, |ds|);
    var a, b := next + IdsBefore(ds, all, i), next + IdsBefore(ds, all, j);
    Js.NatTextInjective(a, b);
    assert GenId(a)[7..] == Js.NatText(a);
    assert GenId(b)[7..] == Js.NatText(b);
  }

  /** The request holds one entry per open panel looked at, in panel
      order, each with the panel's final id and `n` defaulting to the
      form's. */
  lemma {:induction false} WalkRequest(ds: seq<StatDiv>, all: Js.Value, next: nat, range: Range, users: seq<Js.Value>)
    ensures var w := Walk(ds, all, next, range, users); var ix := AskedAt(ds, all);
      |w.0| == |ds| && |w.1| == |ix|
      && forall j :: 0 <= j < |ix| ==> w.1[j] == ReqOf(w.0[ix[j]], range, users) && w.0[ix[j]].n == ds[ix[j]].n
    decreases |ds|
  {
    if ds != [] {
      var p := ds[..|ds| - 1];
      WalkRequest(p, all, next, range, users);
      WalkLength(p, all, next, range, users);
      var w := Walk(ds, all, next, range, users);
      var wp := Walk(p, all, next, range, users);
      var ix := AskedAt(ds, all);
      var ixp := AskedAt(p, all);
      forall j | 0 <= j < |ix|
        ensures w.1[j] == ReqOf(w.0[ix[j]], range, users) && w.0[ix[j]].n == ds[ix[j]].n
      {
        if j < |ixp| {
          assert ix[j] == ixp[j] && w.1[j] == wp.1[j] && w.0[ix[j]] == wp.0[ixp[j]];
          assert p[ixp[j]] == ds[ix[j]];
        }
      }
    }
  }

  /** A panel enters the request exactly when it is looked at and its set
      is open; positions are in panel order. */
  lemma {:induction false} AskedAtExact(ds: seq<StatDiv>, all: Js.Value, k: nat)
    requires k < |ds|
    ensures k in AskedAt(ds, all) <==> Asked(ds[k], all)
    ensures forall i, j :: 0 <= i < j < |AskedAt(ds, all)| ==> AskedAt(ds, all)[i] < AskedAt(ds, all)[j]
    decreases |ds|
  {
    var p := ds[..|ds| - 1];
    if k < |ds| - 1 {
      AskedAtExact(p, all, k);
      assert p[k] == ds[k];
    } else if |ds| > 1 {
      AskedAtExact(p, all, 0);
    }
  }

  // -----------------------------------------------------------------------
  // Answers: pair tables

  /** A row of `build_pair_table`: a one-element pair is a title spanning
      both columns, anything else a header with `:` and a value. */
  datatype PairRow = Title(text: string) | Pair(head: string, value: string)

  function At(row: seq<Js.Value>, i: nat): Js.Value {
    if i < |row| then row[i] else Js.Undefined
  }

  function PairTable(pairs: seq<seq<Js.Value>>): (t: seq<PairRow>)
    ensures |t| == |pairs|
    ensures forall i :: 0 <= i < |t| ==> (t[i].Title? <==> |pairs[i]| == 1)
    ensures forall i :: 0 <= i < |t| ==> t[i] == if |pairs[i]| == 1 then Title(Js.ToText(pairs[i][0]))
                                              else Pair(Js.ToText(At(pairs[i], 0)) + ":", Js.ToText(At(pairs[i], 1)))
  {
    if pairs == [] then []
    else
      var row := pairs[0];
      [if |row| == 1 then Title(Js.ToText(row[0])) else Pair(Js.ToText(At(row, 0)) + ":", Js.ToText(At(row, 1)))]
      + PairTable(pairs[1..])
  }

  // -----------------------------------------------------------------------
  // Answers: row tables in show-more sets

  /** A `<tr>`: its set, whether it starts hidden, the class from the
      row's metadata and the remaining columns. */
  datatype Tr<D> = Tr(set_id: nat, hidden: bool, cls: Js.Value, cols: seq<D>)

  /** The loop's `set_id` and `item_c` after `k` rows, as written: the
      counter is reset to 0 on the row that opens a set, so that row is
      not counted. */
  function Counters(count: nat, k: nat): (nat, nat) {
    if k == 0 then (1, 0)
    else
      var c := Counters(count, k - 1);
      if c.1 + 1 > count then (c.0 + 1, 0) else (c.0, c.1 + 1)
  }

  /** The set of the `k`th row, from 0. */
  function SetOf(count: nat, k: nat): nat {
    Counters(count, k + 1).0
  }

  /** `item.table.rows.forEach(...)`: each row's first element is its
      metadata and leaves the row; rows of a set after the first start
      hidden, and the show-more buttons go in once a second set starts.
      An empty row has no metadata: reading its class throws after its
      `<tr>` was appended, which ends the loop. */
  method ChunkRows<D>(rows: seq<seq<D>>, classOf: D -> Js.Value, count: nat)
    returns (trs: seq<Tr<D>>, buttons: bool, threw: bool)
    ensures threw <==> exists k :: 0 <= k < |rows| && rows[k] == []
    ensures |trs| <= |rows| && (!threw ==> |trs| == |rows|)
    ensures threw ==> |trs| > 0 && rows[|trs| - 1] == []
                      && trs[|trs| - 1] == Tr(SetOf(count, |trs| - 1), SetOf(count, |trs| - 1) > 1, Js.Undefined, [])
    ensures forall k :: 0 <= k < |trs| && rows[k] != [] ==>
              trs[k] == Tr(SetOf(count, k), SetOf(count, k) > 1, classOf(rows[k][0]), rows[k][1..])
    ensures buttons <==> exists k :: 0 <= k < |trs| && SetOf(count, k) > 1
  {
    var setId := 1;
    var itemC := 0;
    var showing := 1;
    trs, buttons, threw := [], false, false;
    var k := 0;
    while k < |rows| && !threw
      invariant 0 <= k <= |rows| && |trs| == k
      invariant (setId, itemC) == Counters(count, k)
      invariant !threw ==> forall i :: 0 <= i < k ==> rows[i] != []
      invariant threw ==> k > 0 && rows[k - 1] == []
                          && trs[k - 1] == Tr(SetOf(count, k - 1), SetOf(count, k - 1) > 1, Js.Undefined, [])
      invariant forall i :: 0 <= i < k && rows[i] != [] ==>
                  trs[i] == Tr(SetOf(count, i), SetOf(count, i) > 1, classOf(rows[i][0]), rows[i][1..])
      invariant buttons <==> exists i :: 0 <= i < k && SetOf(count, i) > 1
    {
      SetsGrow(count, k);
      itemC := itemC + 1;
      if itemC > count {
        itemC := 0;
        if showing == setId {
          buttons := true;
        }
        setId := setId + 1;
      }
      var row := rows[k];
      if row == [] {
        trs := trs + [Tr(setId, setId > showing, Js.Undefined, [])];
        threw := true;
      } else {
        trs := trs + [Tr(setId, setId > showing, classOf(row[0]), row[1..])];
      }
      k := k + 1;
    }
  }

  /** Sets never go back, and a row's set is past the first exactly when
      the one before it was or it opens the second set. */
  lemma {:induction false} SetsGrow(count: nat, k: nat)
    ensures Counters(count, k).0 >= 1
    ensures k > 0 ==> SetOf(count, k - 1) == Counters(count, k).0
    ensures (exists i :: 0 <= i < k && SetOf(count, i) > 1) <==> Counters(count, k).0 > 1
  {
    if k > 0 {
      SetsGrow(count, k - 1);
      if Counters(count, k).0 > 1 && Counters(count, k - 1).0 <= 1 {
        assert SetOf(count, k - 1) > 1;
      }
    }
  }

  /** The first row (from 0) of set `s` as written: set 1 starts at row
      0, set 2 after `count` rows, and every later set `count + 1` rows
      after the one before. */
  function FirstRow(count: nat, s: nat): nat
    requires s >= 1
  {
    if s == 1 then 0 else if s == 2 then count else FirstRow(count, s - 1) + count + 1
  }

  /** Where row `k` lands: between its set's first row and the next
      set's, with the counter at its place in the set (the opening row of
      a set after the first counting 0). */
  lemma {:induction false} RowInSet(count: nat, k: nat)
    ensures var c := Counters(count, k + 1);
      c.0 >= 1 && FirstRow(count, c.0) <= k < FirstRow(count, c.0 + 1)
      && (c.0 == 1 ==> c.1 == k + 1) && (c.0 >= 2 ==> c.1 == k - FirstRow(count, c.0))
  {
    if k > 0 {
      RowInSet(count, k - 1);
    }
  }

  lemma {:induction false} FirstRowGrows(count: nat, a: nat, b: nat)
    requires 1 <= a < b
    ensures FirstRow(count, a + 1) <= FirstRow(count, b)
    decreases b
  {
    if b > a + 1 {
      FirstRowGrows(count, a, b - 1);
    }
  }

  /** As written, set `s` is the rows from `FirstRow(count, s)` to just
      before `FirstRow(count, s + 1)`: `count` rows in the first set and
      `count + 1` in every later one. */
  lemma SetsAsWritten(count: nat, s: nat, k: nat)
    requires s >= 1
    ensures SetOf(count, k) == s <==> FirstRow(count, s) <= k < FirstRow(count, s + 1)
    ensures FirstRow(count, 2) - FirstRow(count, 1) == count
    ensures s >= 2 ==> FirstRow(count, s + 1) - FirstRow(count, s) == count + 1
  {
    RowInSet(count, k);
    var t := SetOf(count, k);
    if t < s {
      FirstRowGrows(count, t, s);
    } else if t > s {
      FirstRowGrows(count, s, t);
    }
  }

  /** With one row per set, rows 1 and 2 share set 2. */
  lemma SetsCounterexample()
    ensures SetOf(1, 0) == 1 && SetOf(1, 1) == 2 && SetOf(1, 2) == 2
  {
    SetsAsWritten(1, 1, 0);
    SetsAsWritten(1, 2, 1);
    SetsAsWritten(1, 2, 2);
  }

  /** The evident intent: the counter restarts at 1 on the row that opens
      a set, which then counts towards it. */
  function CountersFixed(count: nat, k: nat): (nat, nat) {
    if k == 0 then (1, 0)
    else
      var c := CountersFixed(count, k - 1);
      if c.1 + 1 > count then (c.0 + 1, 1) else (c.0, c.1 + 1)
  }

  function SetOfFixed(count: nat, k: nat): nat {
    CountersFixed(count, k + 1).0
  }

  /** The loop with the counter restarting at 1. */
  method ChunkRowsFixed<D>(rows: seq<seq<D>>, classOf: D -> Js.Value, count: nat)
    returns (trs: seq<Tr<D>>, buttons: bool, threw: bool)
    ensures threw <==> exists k :: 0 <= k < |rows| && rows[k] == []
    ensures |trs| <= |rows| && (!threw ==> |trs| == |rows|)
    ensures threw ==> |trs| > 0 && rows[|trs| - 1] == []
                      && trs[|trs| - 1] == Tr(SetOfFixed(count, |trs| - 1), SetOfFixed(count, |trs| - 1) > 1, Js.Undefined, [])
    ensures forall k :: 0 <= k < |trs| && rows[k] != [] ==>
              trs[k] == Tr(SetOfFixed(count, k), SetOfFixed(count, k) > 1, classOf(rows[k][0]), rows[k][1..])
    ensures buttons <==> exists k :: 0 <= k < |trs| && SetOfFixed(count, k) > 1
  {
    var setId := 1;
    var itemC := 0;
    var showing := 1;
    trs, buttons, threw := [], false, false;
    var k := 0;
    while k < |rows| && !threw
      invariant 0 <= k <= |rows| && |trs| == k
      invariant (setId, itemC) == CountersFixed(count, k)
      invariant !threw ==> forall i :: 0 <= i < k ==> rows[i] != []
      invariant threw ==> k > 0 && rows[k - 1] == []
                          && trs[k - 1] == Tr(SetOfFixed(count, k - 1), SetOfFixed(count, k - 1) > 1, Js.Undefined, [])
      invariant forall i :: 0 <= i < k && rows[i] != [] ==>
                  trs[i] == Tr(SetOfFixed(count, i), SetOfFixed(count, i) > 1, classOf(rows[i][0]), rows[i][1..])
      invariant buttons <==> exists i :: 0 <= i < k && SetOfFixed(count, i) > 1
    {
      SetsFixedGrow(count, k);
      itemC := itemC + 1;
      if itemC > count {
        itemC := 1;
        if showing == setId {
          buttons := true;
        }
        setId := setId + 1;
      }
      var row := rows[k];
      if row == [] {
        trs := trs + [Tr(setId, setId > showing, Js.Undefined, [])];
        threw := true;
      } else {
        trs := trs + [Tr(setId, setId > showing, classOf(row[0]), row[1..])];
      }
      k := k + 1;
    }
  }

  lemma {:induction false} SetsFixedGrow(count: nat, k: nat)
    ensures CountersFixed(count, k).0 >= 1
    ensures k > 0 ==> SetOfFixed(count, k - 1) == CountersFixed(count, k).0
    ensures (exists i :: 0 <= i < k && SetOfFixed(count, i) > 1) <==> CountersFixed(count, k).0 > 1
  {
    if k > 0 {
      SetsFixedGrow(count, k - 1);
      if CountersFixed(count, k).0 > 1 && CountersFixed(count, k - 1).0 <= 1 {
        assert SetOfFixed(count, k - 1) > 1;
      }
    }
  }

  /** The first row of set `s` with the fix: `count` rows per set. */
  function FirstRowFixed(count: nat, s: nat): nat
    requires s >= 1
  {
    if s == 1 then 0 else FirstRowFixed(count, s - 1) + count
  }

  lemma {:induction false} RowInSetFixed(count: nat, k: nat)
    requires count > 0
    ensures var c := CountersFixed(count, k + 1);
      c.0 >= 1 && FirstRowFixed(count, c.0) <= k < FirstRowFixed(count, c.0 + 1)
      && c.1 == k - FirstRowFixed(count, c.0) + 1
  {
    if k > 0 {
      RowInSetFixed(count, k - 1);
    }
  }

  lemma {:induction false} FirstRowFixedGrows(count: nat, a: nat, b: nat)
    requires 1 <= a < b
    ensures FirstRowFixed(count, a + 1) <= FirstRowFixed(count, b)
    decreases b
  {
    if b > a + 1 {
      FirstRowFixedGrows(count, a, b - 1);
    }
  }

  /** With the fix set `s` is the `count` rows from
      `FirstRowFixed(count, s)` on. */
  lemma SetsFixed(count: nat, s: nat, k: nat)
    requires count > 0 && s >= 1
    ensures SetOfFixed(count, k) == s <==> FirstRowFixed(count, s) <= k < FirstRowFixed(count, s + 1)
    ensures FirstRowFixed(count, s + 1) - FirstRowFixed(count, s) == count
  {
    RowInSetFixed(count, k);
    var t := SetOfFixed(count, k);
    if t < s {
      FirstRowFixedGrows(count, t, s);
    } else if t > s {
      FirstRowFixedGrows(count, s, t);
    }
  }
}
