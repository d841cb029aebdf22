/** The job table (`t2hui.jobtable`): five empty anchor nodes split the
    table body into bands, and `place_row` files each job next to the
    anchor of its band; `modify_row` styles a job row by its status, and
    the count builders render a job's counters. */
module JobTable {
  import Js
  import Dom
  import FieldTable

  type Record = FieldTable.Record

  // -----------------------------------------------------------------------
  // Row state and anchors

  /** The anchors `init_table` appends to the body. */
  datatype Index = Index(fail: Dom.Node, running: Dom.Node, other: Dom.Node, pending: Dom.Node, retry: Dom.Node)

  /** `row_state`: the header row (set by the table's `render`) and the
      anchors, once `init_table` has run. */
  datatype RowState = RowState(header: Dom.Node, index: Js.Option<Index>)

  function Anchors(x: Index): seq<Dom.Node> {
    [x.fail, x.running, x.other, x.pending, x.retry]
  }

  /** `init_table`: the anchors are appended in the order fail, running,
      other, pending, retry. */
  function InitTable(d: Dom.Doc, st: RowState, x: Index): (r: (Dom.Doc, RowState))
    ensures r.1 == st.(index := Js.Some(x))
  {
    var d1 := Dom.Append(d, x.fail);
    var d2 := Dom.Append(d1, x.running);
    var d3 := Dom.Append(d2, x.other);
    var d4 := Dom.Append(d3, x.pending);
    var d5 := Dom.Append(d4, x.retry);
    (d5, st.(index := Js.Some(x)))
  }

  /** On a document none of the anchors is in, `init_table` puts them at
      the end of the body, in order, and touches nothing else. */
  lemma InitTableOrder(d: Dom.Doc, st: RowState, x: Index)
    requires Dom.NoDup(Anchors(x)) && forall n :: n in Anchors(x) ==> !Dom.Attached(d, n)
    ensures InitTable(d, st, x).0.body == d.body + Anchors(x)
    ensures InitTable(d, st, x).0.head == d.head
  {
    var a := Anchors(x);
    assert a[0] == x.fail && a[1] == x.running && a[2] == x.other && a[3] == x.pending && a[4] == x.retry;
    assert x.fail in a && x.running in a && x.other in a && x.pending in a && x.retry in a;
    assert x.fail != x.running && x.fail != x.other && x.running != x.other;
    assert x.pending != x.fail && x.pending != x.running && x.pending != x.other;
    assert x.retry != x.fail && x.retry != x.running && x.retry != x.other && x.retry != x.pending;
    var d1 := Dom.Append(d, x.fail);
    assert d1.body == d.body + [x.fail] && d1.head == d.head;
    var d2 := Dom.Append(d1, x.running);
    assert x.running !in d1.body;
    assert d2.body == d.body + [x.fail, x.running] && d2.head == d.head;
    var d3 := Dom.Append(d2, x.other);
    assert x.other !in d2.body;
    assert d3.body == d.body + [x.fail, x.running, x.other] && d3.head == d.head;
    var d4 := Dom.Append(d3, x.pending);
    assert x.pending !in d3.body;
    assert d4.body == d.body + [x.fail, x.running, x.other, x.pending] && d4.head == d.head;
    assert x.retry !in d4.body;
  }

  // -----------------------------------------------------------------------
  // Placement

  /** Where `place_row` puts a job. */
  datatype Bucket = AfterHeader | BeforeRetry | AfterFail | BeforeFail | BeforeRunning | BeforePending | BeforeOther

  predicate IsRunning(item: Record) {
    Js.LooseEqualsString(FieldTable.Prop(item, "status"), "running")
  }

  predicate Failing(item: Record) {
    Js.GreaterThanNumber(FieldTable.Prop(item, "fail_count"), 0)
  }

  /** The tests of `place_row`, in their order. */
  function BucketOf(item: Record): Bucket {
    if !Js.Truthy(FieldTable.Prop(item, "short_file")) then AfterHeader
    else if Js.Truthy(FieldTable.Prop(item, "retry")) then BeforeRetry
    else if Failing(item) && IsRunning(item) then AfterFail
    else if Failing(item) then BeforeFail
    else if IsRunning(item) then BeforeRunning
    else if Js.LooseEqualsString(FieldTable.Prop(item, "status"), "pending") then BeforePending
    else BeforeOther
  }

  function AnchorOf(x: Index, b: Bucket): Dom.Node
    requires b != AfterHeader
  {
    match b
    case BeforeRetry => x.retry
    case AfterFail => x.fail
    case BeforeFail => x.fail
    case BeforeRunning => x.running
    case BeforePending => x.pending
    case BeforeOther => x.other
  }

  /** `place_row` as written: a job without `short_file` goes after the
      header row; any other job goes beside its anchor, so a table whose
      anchors were never added throws (`Raised`).  It never returns false. */
  function PlaceRow(d: Dom.Doc, n: Dom.Node, item: Record, st: RowState): (p: FieldTable.Placement<RowState>)
    ensures p.state == st && p.outcome != FieldTable.Declined
    ensures st.index.Some? ==> p.outcome == FieldTable.Placed
  {
    var b := BucketOf(item);
    if b == AfterHeader then FieldTable.Placement(FieldTable.Placed, Dom.InsertAfter(d, st.header, n), st)
    else match st.index
      case None => FieldTable.Placement(FieldTable.Raised, d, st)
      case Some(x) => FieldTable.Placement(FieldTable.Placed, Dom.Insert(d, AnchorOf(x, b), n, b == AfterFail), st)
  }

  /** The table's code never runs `init_table` (the table engine does not
      read `spec.init`), so every job with a `short_file` makes `place_row`
      throw. */
  lemma UninitialisedRaises(d: Dom.Doc, n: Dom.Node, item: Record, header: Dom.Node)
    requires Js.Truthy(FieldTable.Prop(item, "short_file"))
    ensures PlaceRow(d, n, item, RowState(header, Js.None)).outcome == FieldTable.Raised
  {
  }

  /** Once `init_table` has run, `place_row` places every job itself. */
  lemma PlaceAfterInit(d: Dom.Doc, st: RowState, x: Index, d': Dom.Doc, n: Dom.Node, item: Record)
    ensures PlaceRow(d', n, item, InitTable(d, st, x).1).outcome == FieldTable.Placed
  {
  }

  // -----------------------------------------------------------------------
  // Bands

  /** The rows of each band: `hd` after the header row, then in the body
      `f` before the fail anchor, `fr` after it, `r` before the running
      anchor, `o` before other, `p` before pending, `rt` before retry. */
  datatype Bands = Bands(hd: seq<Dom.Node>, f: seq<Dom.Node>, fr: seq<Dom.Node>, r: seq<Dom.Node>,
                         o: seq<Dom.Node>, p: seq<Dom.Node>, rt: seq<Dom.Node>)

  function HeadOf(b: Bands, header: Dom.Node): seq<Dom.Node> {
    [header] + b.hd
  }

  /** The body's segments: the bands and the anchors between them. */
  function Segments(b: Bands, x: Index): seq<seq<Dom.Node>> {
    [b.f, [x.fail], b.fr, b.r, [x.running], b.o, [x.other], b.p, [x.pending], b.rt, [x.retry]]
  }

  function BodyOf(b: Bands, x: Index): seq<Dom.Node> {
    Dom.Flatten(Segments(b, x))
  }

  /** Where one more job of bucket `k` lands: at the end of its band for a
      "before" anchor, at the front for an "after" one. */
  function AddTo(b: Bands, k: Bucket, n: Dom.Node): Bands {
    match k
    case AfterHeader => b.(hd := [n] + b.hd)
    case BeforeRetry => b.(rt := b.rt + [n])
    case AfterFail => b.(fr := [n] + b.fr)
    case BeforeFail => b.(f := b.f + [n])
    case BeforeRunning => b.(r := b.r + [n])
    case BeforePending => b.(p := b.p + [n])
    case BeforeOther => b.(o := b.o + [n])
  }

  /** The segment index of each bucket's anchor. */
  function AnchorSegment(k: Bucket): nat
    requires k != AfterHeader
  {
    match k
    case BeforeRetry => 10
    case AfterFail => 1
    case BeforeFail => 1
    case BeforeRunning => 4
    case BeforePending => 8
    case BeforeOther => 6
  }

  /** The same after the header row, first in the head. */
  lemma InsertAfterHeader(d: Dom.Doc, header: Dom.Node, y: seq<Dom.Node>, n: Dom.Node)
    requires d.head == [header] + y && header !in d.body && !Dom.Attached(d, n)
    ensures Dom.InsertAfter(d, header, n).head == [header] + [n] + y
    ensures Dom.InsertAfter(d, header, n).body == d.body
  {
    var e := Dom.Detach(d, n);
    assert e == d;
    assert d.head[..1] == [header] && d.head[1..] == y;
  }

  /** `d` holds exactly the bands `b`, every node once. */
  predicate Laid(d: Dom.Doc, b: Bands, header: Dom.Node, x: Index) {
    d.head == HeadOf(b, header) && d.body == BodyOf(b, x) && Dom.WellFormed(d)
  }

  /** A job without `short_file` starts the head's band, after the header. */
  lemma PlaceUnderHeader(d: Dom.Doc, b: Bands, header: Dom.Node, x: Index, n: Dom.Node, item: Record)
    requires Laid(d, b, header, x) && !Dom.Attached(d, n) && BucketOf(item) == AfterHeader
    ensures Laid(PlaceRow(d, n, item, RowState(header, Js.Some(x))).doc, AddTo(b, AfterHeader, n), header, x)
    ensures forall m :: Dom.Attached(PlaceRow(d, n, item, RowState(header, Js.Some(x))).doc, m)
                        <==> Dom.Attached(d, m) || m == n
  {
    InsertAfterHeader(d, header, b.hd, n);
    Dom.InsertAttaches(d, header, n, true);
    Dom.NoDupInsertAt(d.head, 1, n);
    assert d.head[..1] == [header] && d.head[1..] == b.hd;
  }

  /** Any other job goes to the end or, after the fail anchor, to the front
      of its band in the body. */
  lemma BesideAnchorShape(d: Dom.Doc, b: Bands, header: Dom.Node, x: Index, n: Dom.Node, item: Record)
    requires Laid(d, b, header, x) && !Dom.Attached(d, n) && BucketOf(item) != AfterHeader
    ensures AnchorOf(x, BucketOf(item)) in d.body
    ensures PlaceRow(d, n, item, RowState(header, Js.Some(x))).doc
         == Dom.Insert(d, AnchorOf(x, BucketOf(item)), n, BucketOf(item) == AfterFail)
    ensures var r := PlaceRow(d, n, item, RowState(header, Js.Some(x))).doc;
      r.head == HeadOf(AddTo(b, BucketOf(item), n), header) && r.body == BodyOf(AddTo(b, BucketOf(item), n), x)
  {
    var k := BucketOf(item);
    var ss := Segments(b, x);
    var j := AnchorSegment(k);
    SegmentsGrow(b, x, k, n);
    Dom.FlattenSplit(ss, j);
    Dom.InsertIntoSegments(d, ss, j, n, k == AfterFail);
    SegmentsGrow(b, x, k, n);
  }

  /** Adding to a band grows the segment next to the bucket's anchor. */
  lemma SegmentsGrow(b: Bands, x: Index, k: Bucket, n: Dom.Node)
    requires k != AfterHeader
    ensures var ss, j := Segments(b, x), AnchorSegment(k);
      1 <= j <= 10 && ss[j] == [AnchorOf(x, k)]
      && Segments(AddTo(b, k, n), x) == if k == AfterFail then ss[j + 1 := [n] + ss[j + 1]] else ss[j - 1 := ss[j - 1] + [n]]
  {
  }

  lemma PlaceBesideAnchor(d: Dom.Doc, b: Bands, header: Dom.Node, x: Index, n: Dom.Node, item: Record)
    requires Laid(d, b, header, x) && !Dom.Attached(d, n) && BucketOf(item) != AfterHeader
    ensures Laid(PlaceRow(d, n, item, RowState(header, Js.Some(x))).doc, AddTo(b, BucketOf(item), n), header, x)
    ensures forall m :: Dom.Attached(PlaceRow(d, n, item, RowState(header, Js.Some(x))).doc, m)
                        <==> Dom.Attached(d, m) || m == n
  {
    var k := BucketOf(item);
    var a := AnchorOf(x, k);
    BesideAnchorShape(d, b, header, x, n, item);
    Dom.InsertAttaches(d, a, n, k == AfterFail);
    Dom.InsertKeepsWellFormed(d, a, n, k == AfterFail);
  }

  /** Placing a fresh job into a laid-out table adds it to its band and
      moves nothing else: the anchors keep their order and every other row
      stays in its band. */
  lemma PlaceInBands(d: Dom.Doc, b: Bands, header: Dom.Node, x: Index, n: Dom.Node, item: Record)
    requires Laid(d, b, header, x) && !Dom.Attached(d, n)
    ensures Laid(PlaceRow(d, n, item, RowState(header, Js.Some(x))).doc, AddTo(b, BucketOf(item), n), header, x)
    ensures forall m :: Dom.Attached(PlaceRow(d, n, item, RowState(header, Js.Some(x))).doc, m)
                        <==> Dom.Attached(d, m) || m == n
  {
    if BucketOf(item) == AfterHeader {
      PlaceUnderHeader(d, b, header, x, n, item);
    } else {
      PlaceBesideAnchor(d, b, header, x, n, item);
    }
  }

  // -----------------------------------------------------------------------
  // Arrival order

  /** A job row handed to `place_row`: its node and its record. */
  datatype Job = Job(node: Dom.Node, item: Record)

  function Nodes(jobs: seq<Job>): (r: seq<Dom.Node>)
    ensures |r| == |jobs| && forall i :: 0 <= i < |jobs| ==> r[i] == jobs[i].node
  {
    seq(|jobs|, i requires 0 <= i < |jobs| => jobs[i].node)
  }

  const NoRows := Bands([], [], [], [], [], [], [])

  /** `place_row` for each job in turn. */
  function PlaceAll(d: Dom.Doc, st: RowState, jobs: seq<Job>): Dom.Doc
    decreases |jobs|
  {
    if jobs == [] then d
    else
      var j := jobs[|jobs| - 1];
      PlaceRow(PlaceAll(d, st, jobs[..|jobs| - 1]), j.node, j.item, st).doc
  }

  /** The bands after the jobs arrived one by one. */
  function Arrive(jobs: seq<Job>): Bands
    decreases |jobs|
  {
    if jobs == [] then NoRows
    else
      var j := jobs[|jobs| - 1];
      AddTo(Arrive(jobs[..|jobs| - 1]), BucketOf(j.item), j.node)
  }

  /** The jobs of bucket `k`, in arrival order. */
  function InBucket(jobs: seq<Job>, k: Bucket): (r: seq<Dom.Node>)
    ensures forall m :: m in r ==> m in Nodes(jobs)
    decreases |jobs|
  {
    if jobs == [] then []
    else
      var j := jobs[|jobs| - 1];
      var init := jobs[..|jobs| - 1];
      assert forall m :: m in Nodes(init) ==> m in Nodes(jobs) by {
        forall m | m in Nodes(init) ensures m in Nodes(jobs) {
          var i :| 0 <= i < |init| && Nodes(init)[i] == m;
          assert Nodes(jobs)[i] == m;
        }
      }
      assert Nodes(jobs)[|jobs| - 1] == j.node;
      InBucket(init, k) + (if BucketOf(j.item) == k then [j.node] else [])
  }

  function Reverse(s: seq<Dom.Node>): (r: seq<Dom.Node>)
    ensures |r| == |s| && forall i :: 0 <= i < |s| ==> r[i] == s[|s| - 1 - i]
  {
    if s == [] then [] else [s[|s| - 1]] + Reverse(s[..|s| - 1])
  }

  lemma ReverseSnoc(s: seq<Dom.Node>, n: Dom.Node)
    ensures Reverse(s + [n]) == [n] + Reverse(s)
  {
    assert (s + [n])[..|s|] == s;
  }

  /** The bands in arrival terms: rows put after the header row or after
      the fail anchor are newest first, every other band is in arrival
      order. */
  lemma {:induction false} ArrivalBands(jobs: seq<Job>)
    ensures Arrive(jobs) == Bands(Reverse(InBucket(jobs, AfterHeader)), InBucket(jobs, BeforeFail),
                                  Reverse(InBucket(jobs, AfterFail)), InBucket(jobs, BeforeRunning),
                                  InBucket(jobs, BeforeOther), InBucket(jobs, BeforePending),
                                  InBucket(jobs, BeforeRetry))
  {
    if jobs != [] {
      var init := jobs[..|jobs| - 1];
      var j := jobs[|jobs| - 1];
      ArrivalBands(init);
      var k := BucketOf(j.item);
      assert Arrive(jobs) == AddTo(Arrive(init), k, j.node);
      assert InBucket(jobs, k) == InBucket(init, k) + [j.node];
      assert forall k' :: k' != k ==> InBucket(jobs, k') == InBucket(init, k');
      if k == AfterHeader || k == AfterFail {
        ReverseSnoc(InBucket(init, k), j.node);
      }
    }
  }

  /** Placing jobs with fresh, distinct nodes into a laid-out table built
      from no rows yields their arrival bands, and attaches exactly them. */
  lemma {:induction false} PlaceAllLaid(d: Dom.Doc, header: Dom.Node, x: Index, jobs: seq<Job>)
    requires Laid(d, NoRows, header, x)
    requires Dom.NoDup(Nodes(jobs)) && forall m :: m in Nodes(jobs) ==> !Dom.Attached(d, m)
    ensures Laid(PlaceAll(d, RowState(header, Js.Some(x)), jobs), Arrive(jobs), header, x)
    ensures forall m :: Dom.Attached(PlaceAll(d, RowState(header, Js.Some(x)), jobs), m)
                        <==> Dom.Attached(d, m) || m in Nodes(jobs)
  {
    if jobs != [] {
      var st := RowState(header, Js.Some(x));
      var last := |jobs| - 1;
      var init := jobs[..last];
      var j := jobs[last];
      assert Nodes(jobs) == Nodes(init) + [j.node];
      Dom.NoDupSplit(Nodes(init), j.node, []);
      assert Dom.NoDup(Nodes(init)) by {
        forall p, q | 0 <= p < q < |init| ensures Nodes(init)[p] != Nodes(init)[q] {
          assert Nodes(jobs)[p] == Nodes(init)[p] && Nodes(jobs)[q] == Nodes(init)[q];
        }
      }
      PlaceAllLaid(d, header, x, init);
      PlaceInBands(PlaceAll(d, st, init), Arrive(init), header, x, j.node, j.item);
    }
  }

  /** With `init_table` run on an empty table, jobs placed one by one end
      up below the header row, newest first, when they have no
      `short_file`; all others go to the body's bands failed |
      failing-and-running (newest first) | running | other | pending |
      retry, with the anchors between the bands in their original order. */
  lemma ArrivalOrder(d: Dom.Doc, header: Dom.Node, x: Index, jobs: seq<Job>)
    requires d.head == [header] && d.body == []
    requires Dom.NoDup([header] + Anchors(x) + Nodes(jobs))
    ensures var st := InitTable(d, RowState(header, Js.None), x).1;
      var r := PlaceAll(InitTable(d, RowState(header, Js.None), x).0, st, jobs);
      r.head == [header] + Reverse(InBucket(jobs, AfterHeader))
      && r.body == BodyOf(Bands([], InBucket(jobs, BeforeFail), Reverse(InBucket(jobs, AfterFail)),
                                InBucket(jobs, BeforeRunning), InBucket(jobs, BeforeOther),
                                InBucket(jobs, BeforePending), InBucket(jobs, BeforeRetry)), x)
  {
    var st := RowState(header, Js.None);
    Dom.NoDupConcat([header] + Anchors(x), Nodes(jobs));
    Dom.NoDupConcat([header], Anchors(x));
    InitTableOrder(d, st, x);
    var d0 := InitTable(d, st, x).0;
    InitLays(d0, header, x);
    assert forall m :: m in Nodes(jobs) ==> !Dom.Attached(d0, m) by {
      forall m | m in Nodes(jobs) ensures !Dom.Attached(d0, m) {
        assert m !in [header] + Anchors(x);
        assert d0.head + d0.body == [header] + Anchors(x);
      }
    }
    PlaceAllLaid(d0, header, x, jobs);
    ArrivalBands(jobs);
  }

  /** The table right after `init_table` holds the empty bands. */
  lemma InitLays(d: Dom.Doc, header: Dom.Node, x: Index)
    requires d.head == [header] && d.body == Anchors(x) && Dom.NoDup(Anchors(x)) && header !in Anchors(x)
    ensures Laid(d, NoRows, header, x)
  {
    var ss := Segments(NoRows, x);
    assert ss[11..] == [];
    assert Dom.Flatten(ss[10..]) == [x.retry] by { assert ss[10..][1..] == ss[11..]; }
    assert Dom.Flatten(ss[9..]) == [x.retry] by { assert ss[9..][1..] == ss[10..]; }
    assert Dom.Flatten(ss[8..]) == [x.pending, x.retry] by { assert ss[8..][1..] == ss[9..]; }
    assert Dom.Flatten(ss[7..]) == [x.pending, x.retry] by { assert ss[7..][1..] == ss[8..]; }
    assert Dom.Flatten(ss[6..]) == [x.other, x.pending, x.retry] by { assert ss[6..][1..] == ss[7..]; }
    assert Dom.Flatten(ss[5..]) == [x.other, x.pending, x.retry] by { assert ss[5..][1..] == ss[6..]; }
    assert Dom.Flatten(ss[4..]) == [x.running, x.other, x.pending, x.retry] by { assert ss[4..][1..] == ss[5..]; }
    assert Dom.Flatten(ss[3..]) == [x.running, x.other, x.pending, x.retry] by { assert ss[3..][1..] == ss[4..]; }
    assert Dom.Flatten(ss[2..]) == [x.running, x.other, x.pending, x.retry] by { assert ss[2..][1..] == ss[3..]; }
    assert Dom.Flatten(ss[1..]) == Anchors(x) by { assert ss[1..][1..] == ss[2..]; }
    assert ss[1..] == ss[1..];
    assert Dom.Flatten(ss) == Anchors(x) by { assert ss[0] == [] && ss[1..] == ss[1..]; }
  }

  // -----------------------------------------------------------------------
  // Row styling

  predicate HasStatus(item: Record, status: string) {
    Js.LooseEqualsString(FieldTable.Prop(item, "status"), status)
  }

  /** The classes `modify_row` adds to a job's row, in the order it adds
      them; the first rule that matches decides. */
  function JobClasses(item: Record): seq<string> {
    if !Js.Truthy(FieldTable.Prop(item, "short_file")) then []
    else if Js.LooseEqualsTrue(FieldTable.Prop(item, "retry")) then ["iffy_set", "retry_txt"]
    else if HasStatus(item, "canceled") then ["iffy_set"]
    else if HasStatus(item, "pending") then ["pending_set"]
    else if HasStatus(item, "running") then ["running_set"] + (if Failing(item) then ["error_set"] else [])
    else if Js.LooseEqualsTrue(FieldTable.Prop(item, "fail")) then ["error_set"]
    else ["success_set"]
  }

  /** `modify_row`: adds the job's classes to its row and nothing else. */
  function ModifyRow(d: Dom.Doc, n: Dom.Node, item: Record): (r: Dom.Doc)
    ensures r.head == d.head && r.body == d.body
    ensures Dom.ClassesOf(r, n) == Dom.ClassesOf(d, n) + set c | c in JobClasses(item)
    ensures forall m :: m != n ==> Dom.ClassesOf(r, m) == Dom.ClassesOf(d, m)
  {
    Dom.AddClasses(d, n, JobClasses(item))
  }

  const StatusSets := {"iffy_set", "pending_set", "running_set", "error_set", "success_set"}

  /** A job without `short_file` keeps its row as it is; any other job's row
      gets one status class first, and a second class only when it is a
      retry (`retry_txt`) or running and failing (`error_set`). */
  lemma ModifyRowShape(item: Record)
    ensures !Js.Truthy(FieldTable.Prop(item, "short_file")) <==> JobClasses(item) == []
    ensures JobClasses(item) != [] ==> JobClasses(item)[0] in StatusSets && |JobClasses(item)| <= 2
    ensures |JobClasses(item)| == 2 ==>
      JobClasses(item) == ["iffy_set", "retry_txt"] || JobClasses(item) == ["running_set", "error_set"]
  {
  }

  /** `retry_txt` marks exactly the retried jobs with a `short_file`; a
      retry outranks every status. */
  lemma RetryRule(item: Record)
    ensures "retry_txt" in JobClasses(item)
            <==> Js.Truthy(FieldTable.Prop(item, "short_file")) && Js.LooseEqualsTrue(FieldTable.Prop(item, "retry"))
    ensures "retry_txt" in JobClasses(item) ==> "error_set" !in JobClasses(item) && "running_set" !in JobClasses(item)
  {
  }

  /** `error_set` marks a running job that is failing, or a finished one
      whose `fail` is set, when no earlier rule matched. */
  lemma ErrorRule(item: Record)
    ensures "error_set" in JobClasses(item)
            <==> Js.Truthy(FieldTable.Prop(item, "short_file")) && !Js.LooseEqualsTrue(FieldTable.Prop(item, "retry"))
                 && !HasStatus(item, "canceled") && !HasStatus(item, "pending")
                 && (if HasStatus(item, "running") then Failing(item)
                     else Js.LooseEqualsTrue(FieldTable.Prop(item, "fail")))
    ensures "success_set" in JobClasses(item) ==> JobClasses(item) == ["success_set"]
  {
  }

  // -----------------------------------------------------------------------
  // Count cells

  /** What a job table builder leaves in a cell: its text and classes. */
  datatype Shown = Shown(text: string, classes: set<string>)

  /** `col.text(v || '0')` */
  function CountText(v: Js.Value): string {
    if Js.Truthy(v) then Js.ToText(v) else "0"
  }

  /** `build_pass`, `build_fail` and `build_try`: the count of the named
      property, in a `count` cell. */
  function BuildCount(item: Record, prop: string): (r: Shown)
    ensures r.classes == {"count"}
  {
    Shown(CountText(FieldTable.Prop(item, prop)), {"count"})
  }

  function BuildPass(item: Record): Shown { BuildCount(item, "pass_count") }
  function BuildFail(item: Record): Shown { BuildCount(item, "fail_count") }
  function BuildTry(item: Record): Shown { BuildCount(item, "job_try") }

  /** A missing, null or zero count reads as the number 0, any other number
      as itself: the cell's text always denotes the count. */
  lemma CountTextDenotes(v: Js.Value)
    requires v.Num? || Js.IsNullish(v)
    ensures Js.ToNumber(Js.Str(CountText(v))) == Js.Some(if v.Num? then v.n else 0)
  {
    if v.Num? && v.n != 0 {
      Js.IntTextRoundTrip(v.n);
    } else {
      assert CountText(v) == Js.NatText(0);
      Js.NatTextRoundTrip(0);
    }
  }

  /** `build_exit`: the exit code, or N/A when it is null or undefined. */
  function BuildExit(item: Record): Shown {
    var v := FieldTable.Prop(item, "exit_code");
    Shown(if Js.IsNullish(v) then "N/A" else FieldTable.CellText(v), {})
  }

  /** The exit cell reads N/A exactly when the exit code is null or
      undefined (a code that is not the string "N/A" itself), and a numeric
      code reads back as that number, 0 included. */
  lemma ExitNA(item: Record)
    requires FieldTable.Prop(item, "exit_code") != Js.Str("N/A")
    ensures BuildExit(item).text == "N/A" <==> Js.IsNullish(FieldTable.Prop(item, "exit_code"))
    ensures FieldTable.Prop(item, "exit_code").Num? ==>
      Js.ToNumber(Js.Str(BuildExit(item).text)) == Js.Some(FieldTable.Prop(item, "exit_code").n)
  {
    var v := FieldTable.Prop(item, "exit_code");
    if v.Num? {
      Js.IntTextRoundTrip(v.n);
      if v.n < 0 {
        assert Js.IntText(v.n)[0] == '-';
      } else {
        assert Js.IsDigit(Js.NatText(v.n)[0]);
      }
    } else if v.Bool? {
      assert BuildExit(item).text == (if v.b then "true" else "false");
    }
  }

  // -----------------------------------------------------------------------
  // Dynamic field data

  /** The data of an optional field, undefined for none. */
  function DataOf(f: Js.Option<FieldTable.Field>): Js.Value {
    match f
    case None => Js.Undefined
    case Some(f) => f.data
  }

  /** `field_builder`: the `return false` inside `forEach` only ends one
      callback, so every matching field overwrites `it` and the last one
      wins. */
  method FieldBuilder(fields: seq<FieldTable.Field>, name: string) returns (it: Js.Value)
    ensures it == DataOf(FieldTable.LastField(fields, name))
    ensures (forall i :: 0 <= i < |fields| ==> fields[i].name != name) ==> it == Js.Undefined
  {
    it := Js.Undefined;
    var i := 0;
    while i < |fields|
      invariant 0 <= i <= |fields|
      invariant it == DataOf(FieldTable.LastField(fields[..i], name))
    {
      FieldTable.LastFieldStep(fields[..i], fields[i], name);
      assert fields[..i + 1] == fields[..i] + [fields[i]];
      if fields[i].name == name {
        it := fields[i].data;
      }
      i := i + 1;
    }
    assert fields[..i] == fields;
  }
}
