/** The rendering target, abstracted: a table's header rows and body rows as
    sequences of node ids, plus the class list and attributes of each node.
    The jQuery operations the table code uses become functions on it. */
module Dom {
  import Js

  type Node = nat

  datatype Doc = Doc(
    head: seq<Node>,                          // rows of the table's <thead>
    body: seq<Node>,                          // children of the table's <tbody>
    classes: map<Node, set<string>>,
    attrs: map<Node, map<string, string>>)

  predicate NoDup(s: seq<Node>) {
    forall i, j :: 0 <= i < j < |s| ==> s[i] != s[j]
  }

  /** Every node appears at most once, and not both in the head and the body. */
  predicate WellFormed(d: Doc) {
    NoDup(d.head) && NoDup(d.body) && (forall n :: n in d.head ==> n !in d.body)
  }

  predicate Attached(d: Doc, n: Node) {
    n in d.head || n in d.body
  }

  function IndexOf(s: seq<Node>, n: Node): (i: nat)
    requires n in s
    ensures i < |s| && s[i] == n
    ensures forall j :: 0 <= j < i ==> s[j] != n
  {
    if s[0] == n then 0 else 1 + IndexOf(s[1..], n)
  }

  /** `s` with every occurrence of `n` taken out, the rest in order. */
  function Without(s: seq<Node>, n: Node): (r: seq<Node>)
    ensures forall x :: x in r <==> x in s && x != n
    ensures |r| <= |s|
    ensures n !in s ==> r == s
  {
    if s == [] then []
    else if s[0] == n then Without(s[1..], n)
    else [s[0]] + Without(s[1..], n)
  }

  /** `s` with every node satisfying `drop` taken out, the rest in order. */
  function Keep(s: seq<Node>, drop: Node -> bool): (r: seq<Node>)
    ensures forall x :: x in r <==> x in s && !drop(x)
    ensures |r| <= |s|
  {
    if s == [] then []
    else if drop(s[0]) then Keep(s[1..], drop)
    else [s[0]] + Keep(s[1..], drop)
  }

  /** jQuery moves a node that is already attached: take it out first. */
  function Detach(d: Doc, n: Node): Doc {
    d.(head := Without(d.head, n), body := Without(d.body, n))
  }

  /** `body.append(n)` */
  function Append(d: Doc, n: Node): (r: Doc)
    ensures r.body == Without(d.body, n) + [n]
    ensures r.head == Without(d.head, n) && r.classes == d.classes && r.attrs == d.attrs
  {
    var e := Detach(d, n);
    e.(body := e.body + [n])
  }

  /** `body.prepend(n)` */
  function Prepend(d: Doc, n: Node): (r: Doc)
    ensures r.body == [n] + Without(d.body, n)
    ensures r.head == Without(d.head, n) && r.classes == d.classes && r.attrs == d.attrs
  {
    var e := Detach(d, n);
    e.(body := [n] + e.body)
  }

  /** `anchor.before(n)`, `anchor.after(n)`: a detached anchor, or a node put
      next to itself, leaves the document unchanged. */
  function Insert(d: Doc, anchor: Node, n: Node, after: bool): (r: Doc)
  {
    if !Attached(d, anchor) || anchor == n then d
    else
      var e := Detach(d, n);
      if anchor in e.body then
        var i := IndexOf(e.body, anchor) + (if after then 1 else 0);
        e.(body := e.body[..i] + [n] + e.body[i..])
      else
        var i := IndexOf(e.head, anchor) + (if after then 1 else 0);
        e.(head := e.head[..i] + [n] + e.head[i..])
  }

  function InsertBefore(d: Doc, anchor: Node, n: Node): Doc {
    Insert(d, anchor, n, false)
  }

  function InsertAfter(d: Doc, anchor: Node, n: Node): Doc {
    Insert(d, anchor, n, true)
  }

  /** `prev.replaceWith(n)`: `n` takes the place of an attached `prev`. */
  function ReplaceWith(d: Doc, prev: Node, n: Node): (r: Doc)
  {
    if !Attached(d, prev) || prev == n then d
    else
      var e := InsertBefore(d, prev, n);
      Detach(e, prev)
  }

  function ClassesOf(d: Doc, n: Node): set<string> {
    if n in d.classes then d.classes[n] else {}
  }

  predicate HasClass(d: Doc, n: Node, c: string) {
    c in ClassesOf(d, n)
  }

  function AddClass(d: Doc, n: Node, c: string): (r: Doc)
    ensures r.head == d.head && r.body == d.body
  {
    d.(classes := d.classes[n := ClassesOf(d, n) + {c}])
  }

  function AddClasses(d: Doc, n: Node, cs: seq<string>): (r: Doc)
    ensures r.head == d.head && r.body == d.body && r.attrs == d.attrs
    ensures ClassesOf(r, n) == ClassesOf(d, n) + set c | c in cs
    ensures forall m :: m != n ==> ClassesOf(r, m) == ClassesOf(d, m)
    decreases |cs|
  {
    if cs == [] then d else AddClasses(AddClass(d, n, cs[0]), n, cs[1..])
  }

  function RemoveClass(d: Doc, n: Node, c: string): (r: Doc)
    ensures r.head == d.head && r.body == d.body
  {
    d.(classes := d.classes[n := ClassesOf(d, n) - {c}])
  }

  function Attr(d: Doc, n: Node, k: string): Js.Option<string> {
    if n in d.attrs && k in d.attrs[n] then Js.Some(d.attrs[n][k]) else Js.None
  }

  function SetAttr(d: Doc, n: Node, k: string, v: string): (r: Doc)
    ensures r.head == d.head && r.body == d.body && r.classes == d.classes
  {
    var m := if n in d.attrs then d.attrs[n] else map[];
    d.(attrs := d.attrs[n := m[k := v]])
  }

  /** `.removeAttr(k)` */
  function RemoveAttr(d: Doc, n: Node, k: string): (r: Doc)
    ensures r.head == d.head && r.body == d.body && r.classes == d.classes
    ensures Attr(r, n, k) == Js.None
    ensures forall m, j :: m != n || j != k ==> Attr(r, m, j) == Attr(d, m, j)
  {
    if n in d.attrs then d.(attrs := d.attrs[n := d.attrs[n] - {k}]) else d
  }

  /** `.attr(k, v)`: undefined leaves the attribute as it is (jQuery then
      treats the call as a getter), null removes it, and any other value is
      stored as its text. */
  function AttrValue(d: Doc, n: Node, k: string, v: Js.Value): (r: Doc)
    ensures r.head == d.head && r.body == d.body && r.classes == d.classes
    ensures Attr(r, n, k) == match v
                             case Undefined => Attr(d, n, k)
                             case Null => Js.None
                             case _ => Js.Some(Js.ToText(v))
  {
    match v
    case Undefined => d
    case Null => RemoveAttr(d, n, k)
    case _ => SetAttr(d, n, k, Js.ToText(v))
  }

  /** `$('.c').detach()`: every attached node carrying class `c` leaves. */
  function DetachWithClass(d: Doc, c: string): (r: Doc)
    ensures forall n :: Attached(r, n) <==> Attached(d, n) && !HasClass(d, n, c)
  {
    d.(head := Keep(d.head, (n: Node) => HasClass(d, n, c)), body := Keep(d.body, (n: Node) => HasClass(d, n, c)))
  }

  // ---------------------------------------------------------------------
  // Lemmas

  lemma {:induction false} WithoutNoDup(s: seq<Node>, n: Node)
    requires NoDup(s)
    ensures NoDup(Without(s, n))
  {
    if s != [] {
      WithoutNoDup(s[1..], n);
      assert s[0] !in s[1..];
    }
  }

  lemma {:induction false} KeepNoDup(s: seq<Node>, drop: Node -> bool)
    requires NoDup(s)
    ensures NoDup(Keep(s, drop))
  {
    if s != [] {
      KeepNoDup(s[1..], drop);
      assert s[0] !in s[1..];
    }
  }

  /** The position of a node is the length of the part before it. */
  lemma {:induction false} IndexOfSplit(x: seq<Node>, a: Node, y: seq<Node>)
    requires a !in x
    ensures IndexOf(x + [a] + y, a) == |x|
  {
    if x != [] {
      IndexOfSplit(x[1..], a, y);
      assert (x + [a] + y)[1..] == x[1..] + [a] + y;
    }
  }

  /** The concatenation of a list of segments. */
  function Flatten(ss: seq<seq<Node>>): seq<Node> {
    if ss == [] then [] else ss[0] + Flatten(ss[1..])
  }

  lemma {:induction false} FlattenSplit(ss: seq<seq<Node>>, j: nat)
    requires j < |ss|
    ensures Flatten(ss) == Flatten(ss[..j]) + ss[j] + Flatten(ss[j + 1..])
  {
    if j == 0 {
      assert ss[..0] == [];
    } else {
      FlattenSplit(ss[1..], j - 1);
      assert ss[1..][..j - 1] == ss[1..j];
      assert ss[1..][j - 1] == ss[j];
      assert ss[1..][j..] == ss[j + 1..];
      assert ss[..j][0] == ss[0] && ss[..j][1..] == ss[1..j];
      var a, b, c := Flatten(ss[1..j]), ss[j], Flatten(ss[j + 1..]);
      assert ss[0] + (a + b + c) == (ss[0] + a) + b + c;
    }
  }

  lemma NoDupSplit(x: seq<Node>, a: Node, y: seq<Node>)
    requires NoDup(x + [a] + y)
    ensures a !in x && a !in y
  {
    var s := x + [a] + y;
    assert s[|x|] == a;
    forall i | 0 <= i < |x| ensures x[i] != a {
      assert s[i] == x[i];
    }
    forall i | 0 <= i < |y| ensures y[i] != a {
      assert s[|x| + 1 + i] == y[i];
    }
  }

  /** Inserting next to an attached body anchor a node not yet attached puts
      it exactly beside the anchor and leaves every other node where it was. */
  lemma InsertIntoBody(d: Doc, anchor: Node, n: Node, after: bool)
    requires anchor in d.body && !Attached(d, n)
    ensures var i := IndexOf(d.body, anchor) + (if after then 1 else 0);
      Insert(d, anchor, n, after).body == d.body[..i] + [n] + d.body[i..]
    ensures Insert(d, anchor, n, after).head == d.head
  {
  }


  /** Putting a detached node beside a body anchor that splits the body as
      `x + [a] + y`. */
  lemma InsertBeside(d: Doc, x: seq<Node>, a: Node, y: seq<Node>, n: Node, after: bool)
    requires d.body == x + [a] + y && a !in x && !Attached(d, n)
    ensures Insert(d, a, n, after).body == if after then x + [a] + [n] + y else x + [n] + [a] + y
    ensures Insert(d, a, n, after).head == d.head
  {
    InsertIntoBody(d, a, n, after);
    IndexOfSplit(x, a, y);
    SlicesAround(x, a, y, n);
  }

  lemma SlicesAround(x: seq<Node>, a: Node, y: seq<Node>, n: Node)
    ensures var b := x + [a] + y;
      b[..|x| + 1] + [n] + b[|x| + 1..] == x + [a] + [n] + y
      && b[..|x|] + [n] + b[|x|..] == x + [n] + [a] + y
  {
    var b := x + [a] + y;
    assert b[..|x| + 1] == x + [a] && b[|x| + 1..] == y;
    assert b[..|x|] == x && b[|x|..] == [a] + y;
  }

  /** Growing segment `j + 1` at its front. */
  lemma FlattenPrependSeg(ss: seq<seq<Node>>, j: nat, n: Node)
    requires j + 1 < |ss|
    ensures Flatten(ss[j + 1 := [n] + ss[j + 1]]) == Flatten(ss[..j]) + ss[j] + [n] + Flatten(ss[j + 1..])
  {
    var t := ss[j + 1 := [n] + ss[j + 1]];
    FlattenSplit(t, j);
    FlattenSplit(ss, j);
    assert t[..j] == ss[..j] && t[j] == ss[j];
    assert t[j + 1..][0] == [n] + ss[j + 1] && t[j + 1..][1..] == ss[j + 2..];
    assert ss[j + 1..][0] == ss[j + 1] && ss[j + 1..][1..] == ss[j + 2..];
    var x, z := Flatten(ss[..j]), Flatten(ss[j + 2..]);
    assert Flatten(t[j + 1..]) == [n] + ss[j + 1] + z;
    assert Flatten(ss[j + 1..]) == ss[j + 1] + z;
    assert x + ss[j] + ([n] + ss[j + 1] + z) == x + ss[j] + [n] + (ss[j + 1] + z);
  }

  /** Growing segment `j - 1` at its end. */
  lemma FlattenAppendSeg(ss: seq<seq<Node>>, j: nat, n: Node)
    requires 0 < j < |ss|
    ensures Flatten(ss[j - 1 := ss[j - 1] + [n]]) == Flatten(ss[..j]) + [n] + ss[j] + Flatten(ss[j + 1..])
  {
    var t := ss[j - 1 := ss[j - 1] + [n]];
    FlattenSplit(t, j);
    assert t[j] == ss[j] && t[j + 1..] == ss[j + 1..];
    FlattenSplit(t[..j], j - 1);
    FlattenSplit(ss[..j], j - 1);
    assert t[..j][..j - 1] == ss[..j][..j - 1];
    var none: seq<seq<Node>> := [];
    assert t[..j][j..] == none && ss[..j][j..] == none;
    var w, y := Flatten(ss[..j][..j - 1]), Flatten(ss[j + 1..]);
    assert Flatten(t[..j]) == w + (ss[j - 1] + [n]);
    assert Flatten(ss[..j]) == w + ss[j - 1];
    assert w + (ss[j - 1] + [n]) + ss[j] + y == w + ss[j - 1] + [n] + ss[j] + y;
  }

  /** A body laid out as segments, with a one-node anchor segment `j`: a
      fresh node put before the anchor ends the segment before it, one put
      after the anchor starts the segment after it. */
  lemma InsertIntoSegments(d: Doc, ss: seq<seq<Node>>, j: nat, n: Node, after: bool)
    requires d.body == Flatten(ss) && NoDup(d.body) && !Attached(d, n)
    requires j < |ss| && |ss[j]| == 1
    requires if after then j + 1 < |ss| else j > 0
    ensures Insert(d, ss[j][0], n, after).head == d.head
    ensures Insert(d, ss[j][0], n, after).body
         == Flatten(if after then ss[j + 1 := [n] + ss[j + 1]] else ss[j - 1 := ss[j - 1] + [n]])
  {
    var a := ss[j][0];
    assert ss[j] == [a];
    var x, y := Flatten(ss[..j]), Flatten(ss[j + 1..]);
    FlattenSplit(ss, j);
    NoDupSplit(x, a, y);
    InsertBeside(d, x, a, y, n, after);
    if after {
      FlattenPrependSeg(ss, j, n);
    } else {
      FlattenAppendSeg(ss, j, n);
    }
  }

  lemma NoDupInsertAt(s: seq<Node>, i: nat, n: Node)
    requires NoDup(s) && n !in s && i <= |s|
    ensures NoDup(s[..i] + [n] + s[i..])
  {
    var t := s[..i] + [n] + s[i..];
    assert forall k :: 0 <= k < |t| ==> t[k] == if k < i then s[k] else if k == i then n else s[k - 1];
  }

  /** Moving a detached node next to a body anchor keeps every node
      appearing once. */
  lemma InsertKeepsWellFormed(d: Doc, anchor: Node, n: Node, after: bool)
    requires WellFormed(d) && anchor in d.body && !Attached(d, n)
    ensures WellFormed(Insert(d, anchor, n, after))
  {
    InsertIntoBody(d, anchor, n, after);
    var i := IndexOf(d.body, anchor) + (if after then 1 else 0);
    NoDupInsertAt(d.body, i, n);
    InsertedMembers(d.body, i, n);
  }

  lemma InsertedMembers(s: seq<Node>, i: nat, n: Node)
    requires i <= |s|
    ensures forall m :: m in s[..i] + [n] + s[i..] <==> m in s || m == n
  {
    assert s == s[..i] + s[i..];
  }

  /** Putting a detached node next to an attached anchor attaches exactly
      that node. */
  lemma InsertAttaches(d: Doc, anchor: Node, n: Node, after: bool)
    requires Attached(d, anchor) && anchor != n && !Attached(d, n)
    ensures forall m :: Attached(Insert(d, anchor, n, after), m) <==> Attached(d, m) || m == n
  {
    var e := Detach(d, n);
    assert e == d;
    if anchor in d.body {
      var i := IndexOf(d.body, anchor) + (if after then 1 else 0);
      assert d.body == d.body[..i] + d.body[i..];
    } else {
      var i := IndexOf(d.head, anchor) + (if after then 1 else 0);
      assert d.head == d.head[..i] + d.head[i..];
    }
  }

  lemma NoDupConcat(a: seq<Node>, b: seq<Node>)
    requires NoDup(a + b)
    ensures NoDup(a) && NoDup(b) && forall m :: m in a ==> m !in b
  {
    var s := a + b;
    forall i, j | 0 <= i < j < |a| ensures a[i] != a[j] {
      assert s[i] == a[i] && s[j] == a[j];
    }
    forall i, j | 0 <= i < j < |b| ensures b[i] != b[j] {
      assert s[|a| + i] == b[i] && s[|a| + j] == b[j];
    }
    forall m | m in a ensures m !in b {
      var i :| 0 <= i < |a| && a[i] == m;
      forall j | 0 <= j < |b| ensures b[j] != m {
        assert s[i] == m && s[|a| + j] == b[j];
      }
    }
  }
}
