/** `t2hui.build_event`: the rows of one event in the event view, each
    with its controls cell, its tag, its content and the subtest blocks
    that indent it.  Elements are values; the click handlers are left out. */
module Event {
  import Js

  /** The content of a line: an object or array is shown by the JSON
      viewer, anything else as text. */
  datatype Payload = Obj | Scalar(v: Js.Value)

  /** `[facet, tag, content]` */
  datatype Line = Line(facet: string, tag: string, content: Payload)

  datatype Ev = Ev(lines: seq<Line>, isOrphan: Js.Value, isParent: Js.Value, nested: Js.Value, eventId: Js.Value)

  datatype Content = JsonView | Pre(text: string)

  /** `subtest_block`; the toggle one opens the subtest's own events. */
  datatype Block = Plain | Toggle

  /** A `<tr>`: its class (none on the placeholder row), whether its first
      cell is the controls cell or a `no_controls` one, the header text,
      the blocks prepended to its content cell, and the content. */
  datatype Row = Row(cls: Js.Option<string>, controls: bool, head: string, blocks: seq<Block>, content: Content)

  /** The event's wrapper `<div>`. */
  datatype Wrap = Wrap(classes: set<string>, hidden: bool, rows: seq<Row>)

  /** `s.replace(a, b)` with a string pattern: only the first occurrence. */
  function Replace1(s: string, a: char, b: char): (r: string)
    ensures |r| == |s|
    ensures a !in s ==> r == s
  {
    if s == [] then []
    else if s[0] == a then [b] + s[1..]
    else [s[0]] + Replace1(s[1..], a, b)
  }

  /** The first occurrence is replaced and every other character, later
      occurrences included, is kept. */
  lemma {:induction false} Replace1Only(s: string, a: char, b: char, i: nat)
    requires i < |s|
    ensures Replace1(s, a, b)[i] == if s[i] == a && a !in s[..i] then b else s[i]
  {
    if s[0] != a && i > 0 {
      Replace1Only(s[1..], a, b, i - 1);
      assert s[1..][..i - 1] == s[1..i];
      assert s[..i] == [s[0]] + s[1..i];
    }
  }

  /** The row class: facet and tag with their first space made `-`. */
  function RowClass(l: Line): string {
    Replace1(l.facet, ' ', '-') + " " + Replace1(l.tag, ' ', '-')
  }

  function ContentOf(p: Payload): Content {
    match p
    case Obj => JsonView
    case Scalar(v) => Pre(Js.ToText(v))
  }

  /** The row of line `i`, before its blocks: only the first row gets the
      controls cell. */
  function LineRow(l: Line, i: nat): Row {
    Row(Js.Some(RowClass(l)), i == 0, l.tag, [], ContentOf(l.content))
  }

  /** The single row of an event without lines, showing its id. */
  function HiddenRow(e: Ev): Row {
    Row(Js.None, true, "HIDDEN", [], Pre(Js.ToText(e.eventId)))
  }

  /** How many times `for (i = e.nested; i >= 0; i--)` runs: once more
      than `nested` for a number of at least 0 (null counts as 0), not at
      all for a negative or non-numeric `nested`. */
  function BlockCount(nested: Js.Value): nat {
    match Js.ToNumber(nested)
    case Some(k) => if k >= 0 then k + 1 else 0
    case None => 0
  }

  /** The blocks row `r` ends up with, left to right. */
  function Blocks(e: Ev, r: nat): (bs: seq<Block>)
    ensures |bs| == BlockCount(e.nested)
  {
    var n := BlockCount(e.nested);
    seq(n, j requires 0 <= j < n => if r == 0 && Js.Truthy(e.isParent) && j == n - 1 then Toggle else Plain)
  }

  /** `i >= 0` */
  predicate AtLeastZero(i: Js.Value) {
    Js.ToNumber(i).Some? && Js.ToNumber(i).value >= 0
  }

  /** `apply_subtest_blocks(e, row, r, where)`: the loop counts `i` down
      from `e.nested`, prepending a block each time; the block made while
      `i === e.nested`, the first one, is the toggle on the first row of a
      parent, and prepending puts it last. */
  method ApplySubtestBlocks(e: Ev, row: Row, r: nat) returns (row': Row)
    ensures row' == row.(blocks := Blocks(e, r) + row.blocks)
  {
    ghost var n: int := BlockCount(e.nested);
    var blocks := row.blocks;
    var i := e.nested;
    ghost var t: int := 0;
    assert Blocks(e, r)[n..] == [];
    while AtLeastZero(i)
      invariant 0 <= t <= n && blocks == Blocks(e, r)[n - t..] + row.blocks
      invariant t == 0 ==> i == e.nested
      invariant t > 0 ==> i == Js.Num(n - 1 - t)
      invariant AtLeastZero(i) <==> t < n
      decreases n - t
    {
      var block := if r == 0 && Js.Truthy(e.isParent) && i == e.nested then Toggle else Plain;
      assert block == Blocks(e, r)[n - t - 1] by {
        if t > 0 {
          assert Js.ToNumber(e.nested) == Js.Some(n - 1);
        }
      }
      assert Blocks(e, r)[n - t - 1..] == [block] + Blocks(e, r)[n - t..];
      blocks := [block] + blocks;
      i := Js.Num(Js.ToNumber(i).value - 1);
      t := t + 1;
    }
    assert Blocks(e, r)[n - t..] == Blocks(e, r);
    row' := row.(blocks := blocks);
  }

  /** `build_event(e)`: the wrapper's classes and visibility, one row per
      line (or the placeholder row), then the blocks of every row. */
  method BuildEvent(e: Ev) returns (w: Wrap)
    ensures w.classes == {"event"} + (if Js.Truthy(e.isOrphan) then {"orphan"} else {})
                                   + (if |e.lines| == 0 then {"no_lines"} else {})
    ensures w.hidden <==> Js.Truthy(e.isOrphan) || |e.lines| == 0
    ensures |w.rows| == if |e.lines| == 0 then 1 else |e.lines|
    ensures |e.lines| == 0 ==> w.rows[0] == HiddenRow(e).(blocks := Blocks(e, 0))
    ensures forall i :: 0 <= i < |e.lines| ==> w.rows[i] == LineRow(e.lines[i], i).(blocks := Blocks(e, i))
    ensures forall r :: 0 <= r < |w.rows| ==> (w.rows[r].controls <==> r == 0)
    ensures forall r :: 0 <= r < |w.rows| ==> w.rows[r].blocks == Blocks(e, r)
  {
    var len := |e.lines|;
    var classes := {"event"};
    var hidden := false;
    if Js.Truthy(e.isOrphan) {
      classes := classes + {"orphan"};
      hidden := true;
    }
    if len == 0 {
      classes := classes + {"no_lines"};
      hidden := true;
    }
    var rows: seq<Row> := [];
    if len != 0 {
      for i := 0 to len
        invariant |rows| == i
        invariant forall k :: 0 <= k < i ==> rows[k] == LineRow(e.lines[k], k)
      {
        rows := rows + [LineRow(e.lines[i], i)];
      }
    } else {
      rows := [HiddenRow(e)];
    }
    ghost var bare := rows;
    for r := 0 to |rows|
      invariant |rows| == |bare|
      invariant forall k :: 0 <= k < r ==> rows[k] == bare[k].(blocks := Blocks(e, k))
      invariant forall k :: r <= k < |rows| ==> rows[k] == bare[k]
    {
      var row := ApplySubtestBlocks(e, rows[r], r);
      rows := rows[r := row];
    }
    w := Wrap(classes, hidden, rows);
  }

  // -----------------------------------------------------------------------
  // Properties of an event's rows

  /** Every row has `nested + 1` blocks; the toggle is on the first row of
      a parent only, as its last block. */
  lemma BlocksShape(e: Ev, r: nat, j: nat)
    requires j < |Blocks(e, r)|
    ensures |Blocks(e, r)| == BlockCount(e.nested)
    ensures Blocks(e, r)[j] == Toggle <==> r == 0 && Js.Truthy(e.isParent) && j == BlockCount(e.nested) - 1
  {
  }

  /** `nested` as a number `k` gives `k + 1` blocks for `k >= 0` and none
      for a negative one; null counts as 0, numeric text as its number,
      and undefined and other text give none. */
  lemma BlockCountOf(k: int)
    ensures BlockCount(Js.Num(k)) == if k >= 0 then k + 1 else 0
    ensures BlockCount(Js.Null) == 1 && BlockCount(Js.Undefined) == 0
    ensures BlockCount(Js.Str("2")) == 3 && BlockCount(Js.Str("x")) == 0
  {
    assert Js.DigitsValue("2") == Js.Some(2) by {
      assert "2"[..0] == "";
    }
    assert Js.DigitsValue("x") == Js.None by {
      assert "x"[..0] == "";
    }
  }

  /** The row class keeps the second space of a two-word facet. */
  lemma SecondSpaceKept()
    ensures RowClass(Line("a b c", "T", Obj)) == "a-b c T"
  {
    assert Replace1("a b c", ' ', '-') == "a-b c";
    assert Replace1("T", ' ', '-') == "T";
  }
}
