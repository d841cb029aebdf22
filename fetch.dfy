/** `t2hui.fetch`: an incrementally growing JSON-lines response is cut into
    records.  Each progress event runs passes over the response text; a pass
    takes the text between the last newline consumed and the last newline
    present, splits it at newlines, skips empty pieces and hands every other
    piece, parsed, to the caller's callback.  The XHR transport, the progress
    and completion events and the timer behind `t2hui.sleep` are the callers
    of the methods below; `JSON.parse` is an uninterpreted partial function. */
module Fetch {
  import Js

  // -----------------------------------------------------------------------
  // JavaScript string operations used by a pass

  /** `s.lastIndexOf(c)`: -1 when `c` does not occur. */
  function LastIndexOf(s: string, c: char): (k: int)
    ensures -1 <= k < |s|
    ensures k >= 0 ==> s[k] == c
    ensures forall i :: k < i < |s| ==> s[i] != c
  {
    if s == [] then -1
    else if s[|s| - 1] == c then |s| - 1
    else LastIndexOf(s[..|s| - 1], c)
  }

  /** How `substring` reads an index argument: clamped to `[0, n]`. */
  function Clamp(i: int, n: nat): (r: nat)
    ensures r <= n
    ensures 0 <= i <= n ==> r == i
  {
    if i < 0 then 0 else if i > n then n else i
  }

  /** `s.substring(a, b)`: both ends clamped, swapped when reversed. */
  function Substring(s: string, a: int, b: int): string {
    var x := Clamp(a, |s|);
    var y := Clamp(b, |s|);
    if x <= y then s[x..y] else s[y..x]
  }

  function FirstIndex(s: string, c: char): (i: nat)
    requires c in s
    ensures i < |s| && s[i] == c
    ensures forall k :: 0 <= k < i ==> s[k] != c
  {
    if s[0] == c then 0 else 1 + FirstIndex(s[1..], c)
  }

  /** `s.split(c)` for a one-character separator: the pieces between
      separators, the empty ones included. */
  function Split(s: string, c: char): (r: seq<string>)
    ensures |r| >= 1
    ensures forall i :: 0 <= i < |r| ==> c !in r[i]
    decreases |s|
  {
    if c !in s then [s]
    else
      var i := FirstIndex(s, c);
      [s[..i]] + Split(s[i + 1..], c)
  }

  /** `l.join(c)`, the inverse of `Split`. */
  function Join(l: seq<string>, c: char): string
    requires |l| >= 1
  {
    if |l| == 1 then l[0] else l[0] + [c] + Join(l[1..], c)
  }

  /** The pieces a pass hands on: `if (!json) { continue }` drops the empty ones. */
  function NonEmpty(l: seq<string>): (r: seq<string>)
    ensures forall i :: 0 <= i < |r| ==> r[i] != ""
  {
    if l == [] then []
    else (if l[0] == "" then [] else [l[0]]) + NonEmpty(l[1..])
  }

  /** The non-empty lines of `s` lying before position `upTo`. */
  function Lines(s: string, upTo: int): seq<string> {
    NonEmpty(Split(Substring(s, 0, upTo), '\n'))
  }

  /** Every non-empty newline-terminated line of `s`, in order. */
  function Complete(s: string): seq<string> {
    Lines(s, LastIndexOf(s, '\n'))
  }

  /** The pieces one pass reads from `response` when `start` was the cursor. */
  function Pieces(response: string, start: int): seq<string> {
    Split(Substring(response, start, LastIndexOf(response, '\n')), '\n')
  }

  /** A cursor value a pass can start from: 0, -1, or the position of a newline. */
  predicate Cursor(s: string, k: int) {
    k <= 0 || (k < |s| && s[k] == '\n')
  }

  // -----------------------------------------------------------------------
  // The text-level properties of a pass

  lemma {:induction false} SplitJoin(s: string, c: char)
    ensures Join(Split(s, c), c) == s
    decreases |s|
  {
    if c in s {
      var i := FirstIndex(s, c);
      var rest := Split(s[i + 1..], c);
      assert Split(s, c) == [s[..i]] + rest;
      SplitJoin(s[i + 1..], c);
      assert Join([s[..i]] + rest, c) == s[..i] + [c] + Join(rest, c);
      assert s == s[..i] + [c] + s[i + 1..];
    }
  }

  /** The first separator of `a + [c] + b`, when `a` holds none, ends `a`. */
  lemma FirstIndexAfter(a: string, b: string, c: char)
    requires c !in a
    ensures FirstIndex(a + [c] + b, c) == |a|
  {
    var s := a + [c] + b;
    assert s[|a|] == c;
    assert s[..|a|] == a;
    var i := FirstIndex(s, c);
    assert i >= |a|;
  }

  lemma {:induction false} JoinSplit(l: seq<string>, c: char)
    requires |l| >= 1 && forall i :: 0 <= i < |l| ==> c !in l[i]
    ensures Split(Join(l, c), c) == l
  {
    if |l| > 1 {
      JoinSplit(l[1..], c);
      assert c !in l[0];
      SplitFirst(l[0], Join(l[1..], c), c);
      assert l == [l[0]] + l[1..];
    }
  }

  /** A separator between two texts separates their pieces. */
  lemma {:induction false} SplitConcat(a: string, b: string, c: char)
    ensures Split(a + [c] + b, c) == Split(a, c) + Split(b, c)
    decreases |a|
  {
    if c !in a {
      SplitFirst(a, b, c);
    } else {
      var j := FirstIndex(a, c);
      var a0, a1 := a[..j], a[j + 1..];
      CutAtFirst(a, c, j);
      SplitFirst(a0, a1, c);
      SplitFirst(a0, a1 + [c] + b, c);
      Regroup(a0, a1, b, [c]);
      SplitConcat(a1, b, c);
      Assoc([a0], Split(a1, c), Split(b, c));
    }
  }

  /** The first piece runs up to the first separator. */
  lemma SplitFirst(a: string, rest: string, c: char)
    requires c !in a
    ensures Split(a + [c] + rest, c) == [a] + Split(rest, c)
  {
    var s := a + [c] + rest;
    assert s[|a|] == c;
    FirstIndexAfter(a, rest, c);
    assert s[..|a|] == a && s[|a| + 1..] == rest;
  }

  /** A text with a separator is the part before its first one, the
      separator and the rest. */
  lemma CutAtFirst(a: string, c: char, j: nat)
    requires c in a && j == FirstIndex(a, c)
    ensures a == a[..j] + [c] + a[j + 1..] && c !in a[..j]
  {
  }

  lemma Regroup<T>(a0: seq<T>, a1: seq<T>, b: seq<T>, c: seq<T>)
    ensures a0 + c + a1 + c + b == a0 + c + (a1 + c + b)
  {
  }

  lemma Assoc<T>(a: seq<T>, b: seq<T>, c: seq<T>)
    ensures a + (b + c) == (a + b) + c
  {
  }

  lemma {:induction false} NonEmptyConcat(a: seq<string>, b: seq<string>)
    ensures NonEmpty(a + b) == NonEmpty(a) + NonEmpty(b)
  {
    if a == [] {
      assert a + b == b;
    } else {
      var h := if a[0] == "" then [] else [a[0]];
      assert (a + b)[0] == a[0];
      assert (a + b)[1..] == a[1..] + b;
      NonEmptyConcat(a[1..], b);
      calc {
        NonEmpty(a + b);
        h + NonEmpty(a[1..] + b);
        h + (NonEmpty(a[1..]) + NonEmpty(b));
        (h + NonEmpty(a[1..])) + NonEmpty(b);
      }
    }
  }

  /** The delivered pieces of a growing prefix of a pass's items. */
  lemma NonEmptyStep(l: seq<string>, p0: nat, p: nat)
    requires p0 <= p < |l|
    ensures NonEmpty(l[p0..p + 1]) == NonEmpty(l[p0..p]) + (if l[p] == "" then [] else [l[p]])
  {
    assert l[p0..p + 1] == l[p0..p] + [l[p]];
    NonEmptyConcat(l[p0..p], [l[p]]);
    assert NonEmpty([l[p]]) == (if l[p] == "" then [] else [l[p]]);
  }

  lemma ParsedAppend<R>(parse: string -> Js.Option<R>, lines: seq<string>, records: seq<R>, x: string, v: R)
    requires Parsed(parse, lines, records) && parse(x) == Js.Some(v)
    ensures Parsed(parse, lines + [x], records + [v])
  {
  }

  /** A response that grows leaves the lines before an old cursor as they were. */
  lemma LinesOfPrefix(a: string, b: string, upTo: int)
    requires a <= b && upTo <= |a|
    ensures Lines(a, upTo) == Lines(b, upTo)
  {
    assert Substring(a, 0, upTo) == Substring(b, 0, upTo);
  }

  /** One pass from a cursor delivers exactly the complete lines that follow
      the lines already delivered from that cursor. */
  lemma PassDelta(s: string, start: int)
    requires Cursor(s, start)
    ensures Lines(s, start) + NonEmpty(Pieces(s, start)) == Complete(s)
  {
    var last := LastIndexOf(s, '\n');
    assert Split("", '\n') == [""];
    assert NonEmpty([""]) == [];
    if start <= 0 {
      assert Substring(s, 0, start) == "";
      assert Substring(s, start, last) == Substring(s, 0, last);
    } else if start == last {
      assert Substring(s, start, last) == "";
    } else {
      assert start < last;
      var rest := s[start + 1..last];
      assert Substring(s, 0, last) == s[..start] + ['\n'] + rest;
      SplitConcat(s[..start], rest, '\n');
      assert Substring(s, start, last) == "" + ['\n'] + rest;
      SplitConcat("", rest, '\n');
      NonEmptyConcat(Split(s[..start], '\n'), Split(rest, '\n'));
      NonEmptyConcat([""], Split(rest, '\n'));
    }
  }

  /** What a pass adds to lines delivered up to the previous cursor is the
      rest of the complete lines of the grown response; a pass over an
      unchanged response from its own last newline reads one empty piece. */
  lemma PassFromCursor(before: string, response: string, start: int)
    requires (start == 0 && before == "") || start == LastIndexOf(before, '\n')
    requires before <= response
    ensures Complete(before) + NonEmpty(Pieces(response, start)) == Complete(response)
    ensures before == response && start == LastIndexOf(response, '\n') ==> Pieces(response, start) == [""]
  {
    assert Split("", '\n') == [""];
    if start == 0 && before == "" {
      assert Substring(before, 0, LastIndexOf(before, '\n')) == "";
      assert Substring(before, 0, start) == "";
      assert Complete(before) == Lines(before, start);
    }
    LinesOfPrefix(before, response, start);
    assert Cursor(response, start) by {
      if start > 0 {
        assert before[start] == response[start];
      }
    }
    PassDelta(response, start);
    if before == response && start == LastIndexOf(response, '\n') {
      assert Substring(response, start, start) == "";
    }
  }

  /** Text after the final newline is delivered by no pass: appending an
      unterminated fragment changes neither the cursor nor the lines. */
  lemma TrailingFragment(s: string, t: string)
    requires '\n' !in t
    ensures LastIndexOf(s + t, '\n') == LastIndexOf(s, '\n')
    ensures Complete(s + t) == Complete(s)
  {
    var u := s + t;
    assert u[..|s|] == s;
    assert forall i :: |s| <= i < |u| ==> u[i] == t[i - |s|];
    var k := LastIndexOf(u, '\n');
    var k' := LastIndexOf(s, '\n');
    assert k < |s|;
    assert k' >= 0 ==> u[k'] == '\n';
    assert k >= 0 ==> s[k] == '\n';
    assert k == k';
    assert Substring(u, 0, k) == Substring(s, 0, k);
  }

  /** A buffer without a newline: the pass moves the cursor to -1, delivers
      nothing, and the next pass reads from the start of the text. */
  lemma NoNewline(s: string, start: int, next: string, end: int)
    requires '\n' !in s && start <= 0
    ensures LastIndexOf(s, '\n') == -1
    ensures NonEmpty(Pieces(s, start)) == [] && Complete(s) == []
    ensures Substring(next, -1, end) == Substring(next, 0, end)
  {
    var k := LastIndexOf(s, '\n');
    assert k == -1;
    assert Substring(s, start, k) == "";
    assert Substring(s, 0, k) == "";
    assert Split("", '\n') == [""];
    assert NonEmpty([""]) == [];
  }

  /** Delivery is in stream order: a newly terminated line is appended to the
      lines delivered so far, unless it is blank. */
  lemma CompleteAppendLine(s: string, x: string)
    requires s == "" || s[|s| - 1] == '\n'
    requires '\n' !in x
    ensures Complete(s + x + ['\n']) == Complete(s) + (if x == "" then [] else [x])
  {
    var u := s + x + ['\n'];
    assert LastIndexOf(u, '\n') == |u| - 1;
    assert Substring(u, 0, |u| - 1) == s + x;
    assert Split(x, '\n') == [x];
    assert NonEmpty([x]) == (if x == "" then [] else [x]);
    assert Split("", '\n') == [""];
    if s == "" {
      assert LastIndexOf("", '\n') == -1;
      assert Substring("", 0, -1) == "";
      assert s + x == x;
    } else {
      var p := s[..|s| - 1];
      assert LastIndexOf(s, '\n') == |s| - 1;
      assert Substring(s, 0, |s| - 1) == p;
      assert s + x == p + ['\n'] + x;
      SplitConcat(p, x, '\n');
      NonEmptyConcat(Split(p, '\n'), [x]);
    }
  }

  // -----------------------------------------------------------------------
  // The closure state of one `t2hui.fetch` call

  predicate Parsed<R(==)>(parse: string -> Js.Option<R>, lines: seq<string>, records: seq<R>) {
    |lines| == |records| && forall i :: 0 <= i < |lines| ==> parse(lines[i]) == Js.Some(records[i])
  }

  /** The delivery state of a fetch: a cursor that is the initial 0 or the
      last newline of the response read last, the lines delivered with their
      records, and a pass's remaining items that complete them. */
  predicate Delivered<R(==)>(parse: string -> Js.Option<R>, lastIndex: int, seen: string,
                             lines: seq<string>, records: seq<R>, items: seq<string>, pos: nat)
  {
    ((lastIndex == 0 && seen == "") || lastIndex == LastIndexOf(seen, '\n'))
    && Parsed(parse, lines, records)
    && pos <= |items|
    && lines + NonEmpty(items[pos..]) == Complete(seen)
  }

  /** Reading a grown response at the end of a pass starts a new pass whose
      items complete the delivered lines to the new response's lines. */
  lemma ReadKeepsDelivered<R>(parse: string -> Js.Option<R>, lastIndex: int, seen: string,
                                  lines: seq<string>, records: seq<R>, items: seq<string>, response: string)
    requires Delivered(parse, lastIndex, seen, lines, records, items, |items|)
    requires seen <= response
    ensures Delivered(parse, LastIndexOf(response, '\n'), response, lines, records,
                      Pieces(response, lastIndex), 0)
    ensures seen == response && lastIndex == LastIndexOf(response, '\n') ==> Pieces(response, lastIndex) == [""]
  {
    assert items[|items|..] == [];
    PassFromCursor(seen, response, lastIndex);
    var ps := Pieces(response, lastIndex);
    assert ps[0..] == ps;
  }

  /** Delivering the items from `p0` to `p` moves them from the remaining
      items to the delivered lines. */
  lemma DeliverKeepsDelivered<R>(parse: string -> Js.Option<R>, lastIndex: int, seen: string,
                                     lines: seq<string>, records: seq<R>, items: seq<string>, p0: nat,
                                     ls: seq<string>, rs: seq<R>, p: nat)
    requires Delivered(parse, lastIndex, seen, lines, records, items, p0)
    requires p0 <= p <= |items| && ls == lines + NonEmpty(items[p0..p]) && Parsed(parse, ls, rs)
    ensures Delivered(parse, lastIndex, seen, ls, rs, items, p)
  {
    var x := items[p0..p];
    var y := items[p..];
    assert items[p0..] == x + y;
    NonEmptyConcat(x, y);
    var nx := NonEmpty(x);
    var ny := NonEmpty(y);
    assert NonEmpty(items[p0..]) == nx + ny;
    assert ls == lines + nx;
    Assoc(lines, nx, ny);
  }

  /** How a pass's for loop ended: it ran out of items, it awaits the
      timer, `JSON.parse` threw on an item, or the callback threw on the
      record it was handed. */
  datatype Stop = Finished | Slept | Threw | CallbackThrew

  /** No record before the last `skip` ones made the callback throw. */
  predicate Accepted<R>(cbThrows: R -> bool, rs: seq<R>, skip: nat) {
    forall i :: 0 <= i < |rs| - skip ==> !cbThrows(rs[i])
  }

  /** The for loop of a pass over `items` from index `from`, with the
      counter at `cnt0`: empty items are skipped, every other one is parsed
      and handed to the callback, the loop stops to sleep at the first
      counter value that is a multiple of 25 and stops for good when a parse
      or the callback throws (`cbThrows` says on which records the callback
      throws).  Returns where it stopped, what it delivered, and the
      counter. */
  method ForItems<R(==)>(parse: string -> Js.Option<R>, cbThrows: R -> bool, items: seq<string>, from: nat, cnt0: nat)
    returns (p: nat, ls: seq<string>, rs: seq<R>, cnt: nat, outcome: Stop)
    requires from <= |items|
    ensures from <= p <= |items|
    ensures ls == NonEmpty(items[from..p]) && Parsed(parse, ls, rs)
    ensures outcome == Finished ==> p == |items|
    ensures outcome == Threw ==> p < |items| && items[p] != "" && parse(items[p]).None?
    ensures outcome == CallbackThrew ==> |rs| > 0 && cbThrows(rs[|rs| - 1])
    ensures Accepted(cbThrows, rs, if outcome == CallbackThrew then 1 else 0)
    ensures cnt == cnt0 + |ls| + (if outcome == Threw then 1 else 0)
    ensures outcome == Slept ==> cnt % 25 == 0 && |ls| > 0
    ensures forall k :: cnt0 < k < cnt ==> k % 25 != 0
  {
    p, ls, rs, cnt, outcome := from, [], [], cnt0, Finished;
    var stop := false;
    assert items[from..from] == [];
    while p < |items| && !stop
      invariant from <= p <= |items|
      invariant ls == NonEmpty(items[from..p]) && Parsed(parse, ls, rs)
      invariant cnt == cnt0 + |ls| + (if outcome == Threw then 1 else 0)
      invariant stop <==> outcome != Finished
      invariant outcome == Threw ==> p < |items| && items[p] != "" && parse(items[p]).None?
      invariant outcome == CallbackThrew ==> |rs| > 0 && cbThrows(rs[|rs| - 1])
      invariant Accepted(cbThrows, rs, if outcome == CallbackThrew then 1 else 0)
      invariant outcome == Slept ==> cnt % 25 == 0 && |ls| > 0
      invariant forall k :: cnt0 < k < cnt ==> k % 25 != 0
      invariant stop || cnt == cnt0 || cnt % 25 != 0
      decreases |items| - p, if stop then 0 else 1
    {
      p, ls, rs, cnt, outcome, stop := ForStep(parse, cbThrows, items, from, cnt0, p, ls, rs, cnt);
    }
  }

  /** One pass of the for loop over `items`: skip an empty item, or
      count, parse and hand it to the callback, stopping when the parse or
      the callback throws or the counter reaches a multiple of 25. */
  method ForStep<R(==)>(parse: string -> Js.Option<R>, cbThrows: R -> bool, items: seq<string>, from: nat, cnt0: nat,
                        p0: nat, ls0: seq<string>, rs0: seq<R>, cnt1: nat)
    returns (p: nat, ls: seq<string>, rs: seq<R>, cnt: nat, outcome: Stop, stop: bool)
    requires from <= p0 < |items|
    requires ls0 == NonEmpty(items[from..p0]) && Parsed(parse, ls0, rs0)
    requires Accepted(cbThrows, rs0, 0)
    requires cnt1 == cnt0 + |ls0|
    requires forall k :: cnt0 < k < cnt1 ==> k % 25 != 0
    requires cnt1 == cnt0 || cnt1 % 25 != 0
    ensures from <= p <= |items| && p == (if outcome == Threw then p0 else p0 + 1)
    ensures ls == NonEmpty(items[from..p]) && Parsed(parse, ls, rs)
    ensures cnt == cnt0 + |ls| + (if outcome == Threw then 1 else 0)
    ensures stop <==> outcome != Finished
    ensures outcome == Threw ==> p < |items| && items[p] != "" && parse(items[p]).None?
    ensures outcome == CallbackThrew ==> |rs| > 0 && cbThrows(rs[|rs| - 1])
    ensures Accepted(cbThrows, rs, if outcome == CallbackThrew then 1 else 0)
    ensures outcome == Slept ==> cnt % 25 == 0 && |ls| > 0
    ensures forall k :: cnt0 < k < cnt ==> k % 25 != 0
    ensures stop || cnt == cnt0 || cnt % 25 != 0
  {
    p, ls, rs, cnt, outcome, stop := p0, ls0, rs0, cnt1, Finished, false;
    var json := items[p];
    NonEmptyStep(items, from, p);
    if json == "" {
      p := p + 1;
    } else {
      cnt := cnt + 1;
      var item := parse(json);
      if item.None? {
        outcome := Threw;
        stop := true;
      } else {
        ParsedAppend(parse, ls, rs, json, item.value);
        ls := ls + [json];
        rs := rs + [item.value];
        p := p + 1;
        if cbThrows(item.value) {
          outcome := CallbackThrew;
          stop := true;
        } else if cnt % 25 == 0 {
          outcome := Slept;
          stop := true;
        }
      }
    }
  }

  lemma Parsed2<R>(parse: string -> Js.Option<R>, l1: seq<string>, r1: seq<R>, l2: seq<string>, r2: seq<R>)
    requires Parsed(parse, l1, r1) && Parsed(parse, l2, r2)
    ensures Parsed(parse, l1 + l2, r1 + r2)
  {
  }

  class Session<R(==)> {
    const parse: string -> Js.Option<R>   // JSON.parse; None is a thrown SyntaxError
    const cbThrows: R -> bool             // the callback `cb` throws on this record
    const hasSpinner: bool                // args.spin_in was given
    const hasDone: bool                   // args.done was given

    var lastIndex: int         // last_index
    var running: bool
    var done: bool
    var spinner: bool          // spin_in carries the class 'spinner'
    var doneCalls: nat         // calls of args.done
    var lines: seq<string>     // the lines handed to the callback so far
    var records: seq<R>        // cb's arguments, in order
    var sleeps: nat            // awaits of t2hui.sleep(50)

    // the state of the pass in progress: the response it read and the
    // for loop's items, index and counter
    var seen: string
    var items: seq<string>
    var pos: nat
    var counter: nat
    var suspended: bool        // awaiting the timer after a 25th record
    var failed: bool           // JSON.parse or cb threw: the handler's promise rejected

    /** The spinner is on until the request is complete and no pass runs. */
    predicate SpinnerState()
      reads this
    {
      (spinner ==> hasSpinner)
      && (!done ==> spinner == hasSpinner)
      && (done && !running ==> !spinner)
    }

    /** The pass's items still to deliver complete the lines delivered so far
        to exactly the complete lines of the response last read. */
    predicate Delivery()
      reads this
    {
      Delivered(parse, lastIndex, seen, lines, records, items, pos)
    }

    /** The pass stopped because `JSON.parse` threw on the current item. */
    predicate ParseFailed()
      reads this
    {
      pos < |items| && items[pos] != "" && parse(items[pos]).None?
    }

    /** The pass stopped because the callback threw on the last record. */
    predicate CallbackFailed()
      reads this
    {
      |records| > 0 && cbThrows(records[|records| - 1])
    }

    /** Everything but the tie between `running` and the pass's state. */
    predicate Core()
      reads this
    {
      SpinnerState()
      && Delivery()
      && doneCalls == (if hasDone && done then 1 else 0)
      && !(suspended && failed)
      && (suspended ==> running && counter > 0 && counter % 25 == 0)
      && (failed ==> running && (ParseFailed() || CallbackFailed()))
      && (!running ==> pos == |items|)
    }

    /** Between events: a pass is in progress only while it sleeps or after
        it threw. */
    predicate Valid()
      reads this
    {
      Core() && (running <==> suspended || failed)
    }

    /** The closure's initial state, with the spinner added. */
    constructor (parse: string -> Js.Option<R>, cbThrows: R -> bool, hasSpinner: bool, hasDone: bool)
      ensures Valid()
      ensures this.parse == parse && this.cbThrows == cbThrows && this.hasSpinner == hasSpinner && this.hasDone == hasDone
      ensures lastIndex == 0 && !running && !done && spinner == hasSpinner
      ensures lines == [] && records == [] && sleeps == 0 && doneCalls == 0
    {
      this.parse := parse;
      this.cbThrows := cbThrows;
      this.hasSpinner := hasSpinner;
      this.hasDone := hasDone;
      lastIndex := 0;
      running := false;
      done := false;
      spinner := hasSpinner;
      doneCalls := 0;
      lines := [];
      records := [];
      sleeps := 0;
      seen := "";
      items := [];
      pos := 0;
      counter := 0;
      suspended := false;
      failed := false;
      new;
      assert Split("", '\n') == [""];
      assert Substring("", 0, -1) == "";
    }

    /** The `complete` callback: no final pass; the spinner goes now unless a
        pass is still running, in which case that pass removes it. */
    method OnComplete()
      requires Valid()
      modifies this
      ensures Valid() && done
      ensures !running ==> !spinner
      ensures running ==> spinner == old(spinner)
      ensures doneCalls == (if hasDone then 1 else 0)
      ensures running == old(running) && suspended == old(suspended) && failed == old(failed)
      ensures lines == old(lines) && records == old(records) && lastIndex == old(lastIndex)
      ensures seen == old(seen) && items == old(items) && pos == old(pos)
      ensures counter == old(counter) && sleeps == old(sleeps)
    {
      if !done {
        done := true;
        if hasSpinner && !running {
          spinner := false;
        }
        if hasDone {
          doneCalls := doneCalls + 1;
        }
      }
    }

    /** The `onprogress` handler with the response text received so far.  A
        tick while a pass is running (sleeping, or dead after a parse error
        or a throwing callback) does nothing. */
    method OnProgress(response: string)
      requires Valid() && seen <= response
      modifies this
      ensures Valid()
      ensures old(running) ==>
        (lines == old(lines) && records == old(records) && lastIndex == old(lastIndex) && seen == old(seen) && running)
      ensures !old(running) ==> seen == response && lastIndex == LastIndexOf(response, '\n')
      ensures old(lines) <= lines && old(records) <= records
      ensures !running ==> lines == Complete(response)
      ensures done == old(done) && doneCalls == old(doneCalls)
    {
      if running {
        return;
      }
      running := true;
      RunLoop(response, true);
    }

    /** The timer after `t2hui.sleep(50)` fires.  By then the event's
        `currentTarget` is null in a browser (`live == false`), so the pass
        ends after its for loop; `response` is the text received by then. */
    method Resume(response: string, live: bool)
      requires Valid() && suspended && seen <= response
      modifies this
      ensures Valid()
      ensures old(lines) <= lines && old(records) <= records
      ensures !live ==> seen == old(seen) && lastIndex == old(lastIndex)
      ensures !running ==> lines == Complete(seen)
      ensures done == old(done) && doneCalls == old(doneCalls)
    {
      suspended := false;
      Deliver();
      if suspended || failed {
        return;
      }
      RunLoop(response, live);
    }

    /** `while (true && e.currentTarget) { …pass…; if (!counter) break; }`
        and the end of the handler.  Within one synchronous run the response
        does not change, so a second pass finds nothing and ends the loop. */
    method RunLoop(response: string, live: bool)
      requires Core() && running && !suspended && !failed && pos == |items|
      requires seen <= response
      modifies this
      ensures Valid()
      ensures old(lines) <= lines && old(records) <= records
      ensures !live ==> seen == old(seen) && lastIndex == old(lastIndex)
      ensures live ==> seen == response && lastIndex == LastIndexOf(response, '\n')
      ensures !running ==> lines == Complete(seen)
      ensures done == old(done) && doneCalls == old(doneCalls)
    {
      if live {
        Pass(response);
        if suspended || failed {
          return;
        }
        while counter != 0
          invariant Core() && running && !suspended && !failed && pos == |items|
          invariant seen == response && lastIndex == LastIndexOf(response, '\n')
          invariant old(lines) <= lines && old(records) <= records
          invariant done == old(done) && doneCalls == old(doneCalls)
          decreases counter
        {
          Pass(response);
        }
      }
      running := false;
      if done && hasSpinner {
        spinner := false;
      }
    }

    /** One pass of the loop over the text received so far.  Over a text
        already read it finds no complete line: nothing is delivered and
        the counter stays 0. */
    method Pass(response: string)
      requires Core() && running && !suspended && !failed && pos == |items|
      requires seen <= response
      modifies this
      ensures Core() && running
      ensures seen == response && lastIndex == LastIndexOf(response, '\n')
      ensures old(lines) <= lines && old(records) <= records
      ensures !suspended && !failed ==> pos == |items|
      ensures old(seen) == response && old(lastIndex) == lastIndex ==> !suspended && !failed && counter == 0
      ensures done == old(done) && doneCalls == old(doneCalls)
    {
      Read(response);
      Deliver();
    }

    /** The head of a pass: cut the text between the last consumed newline
        and the last newline present. */
    method Read(response: string)
      requires Core() && running && !suspended && !failed && pos == |items|
      requires seen <= response
      modifies this
      ensures Core() && running && !suspended && !failed
      ensures seen == response && lastIndex == LastIndexOf(response, '\n')
      ensures items == Pieces(response, old(lastIndex)) && pos == 0 && counter == 0
      ensures old(seen) == response && old(lastIndex) == lastIndex ==> items == [""]
      ensures lines == old(lines) && records == old(records) && sleeps == old(sleeps)
      ensures done == old(done) && spinner == old(spinner) && doneCalls == old(doneCalls)
    {
      ReadKeepsDelivered(parse, lastIndex, seen, lines, records, items, response);
      var start := lastIndex;
      lastIndex := LastIndexOf(response, '\n');
      items := Split(Substring(response, start, lastIndex), '\n');
      pos := 0;
      counter := 0;
      seen := response;
    }

    /** The for loop of a pass, resumed at the current item. */
    method Deliver()
      requires Core() && running && !suspended && !failed
      modifies this
      ensures Core() && running
      ensures seen == old(seen) && lastIndex == old(lastIndex) && items == old(items)
      ensures old(pos) <= pos
      ensures lines == old(lines) + NonEmpty(items[old(pos)..pos])
      ensures old(lines) <= lines && old(records) <= records
      ensures !suspended && !failed ==> pos == |items|
      ensures !failed ==> counter == old(counter) + |lines| - |old(lines)|
      ensures failed ==> ParseFailed() || |lines| > |old(lines)|
      ensures suspended ==> sleeps == old(sleeps) + 1
      ensures !suspended ==> sleeps == old(sleeps)
      ensures done == old(done) && spinner == old(spinner) && doneCalls == old(doneCalls)
    {
      var p, ls, rs, cnt, outcome := ForItems(parse, cbThrows, items, pos, counter);
      Commit(p, ls, rs, cnt, outcome);
    }

    /** The end of a pass's loop: the lines it delivered are recorded, and
        the pass is left asleep, failed or complete. */
    method Commit(p: nat, ls: seq<string>, rs: seq<R>, cnt: nat, outcome: Stop)
      requires Core() && running && !suspended && !failed
      requires pos <= p <= |items| && ls == NonEmpty(items[pos..p]) && Parsed(parse, ls, rs)
      requires outcome == Finished ==> p == |items|
      requires outcome == Threw ==> p < |items| && items[p] != "" && parse(items[p]).None?
      requires outcome == CallbackThrew ==> |rs| > 0 && cbThrows(rs[|rs| - 1])
      requires cnt == counter + |ls| + (if outcome == Threw then 1 else 0)
      requires outcome == Slept ==> cnt % 25 == 0 && |ls| > 0
      modifies this
      ensures Core() && running
      ensures seen == old(seen) && lastIndex == old(lastIndex) && items == old(items)
      ensures old(pos) <= pos
      ensures lines == old(lines) + NonEmpty(items[old(pos)..pos])
      ensures old(lines) <= lines && old(records) <= records
      ensures !suspended && !failed ==> pos == |items|
      ensures !failed ==> counter == old(counter) + |lines| - |old(lines)|
      ensures failed ==> ParseFailed() || |lines| > |old(lines)|
      ensures suspended ==> sleeps == old(sleeps) + 1
      ensures !suspended ==> sleeps == old(sleeps)
      ensures done == old(done) && spinner == old(spinner) && doneCalls == old(doneCalls)
    {
      Advance(p, ls, rs);
      Settle(cnt, outcome);
    }

    /** The lines a pass's for loop delivered move from its items to the
        delivered lines. */
    method Advance(p: nat, ls: seq<string>, rs: seq<R>)
      requires Core() && running && !suspended && !failed
      requires pos <= p <= |items| && ls == NonEmpty(items[pos..p]) && Parsed(parse, ls, rs)
      modifies this
      ensures Core() && running && !suspended && !failed
      ensures pos == p && lines == old(lines) + ls && records == old(records) + rs
      ensures seen == old(seen) && lastIndex == old(lastIndex) && items == old(items)
      ensures counter == old(counter) && sleeps == old(sleeps)
      ensures done == old(done) && spinner == old(spinner) && doneCalls == old(doneCalls)
    {
      Parsed2(parse, lines, records, ls, rs);
      DeliverKeepsDelivered(parse, lastIndex, seen, lines, records, items, pos, lines + ls, records + rs, p);
      pos, lines, records := p, lines + ls, records + rs;
      assert Delivery();
    }

    /** How the for loop ended: asleep after a 25th record, failed after a
        throw, or complete. */
    method Settle(cnt: nat, outcome: Stop)
      requires Core() && running && !suspended && !failed
      requires outcome == Finished ==> pos == |items|
      requires outcome == Threw ==> ParseFailed()
      requires outcome == CallbackThrew ==> CallbackFailed()
      requires outcome == Slept ==> cnt % 25 == 0 && cnt > 0
      modifies this
      ensures Core() && running
      ensures failed == (outcome == Threw || outcome == CallbackThrew) && suspended == (outcome == Slept)
      ensures counter == cnt && sleeps == old(sleeps) + (if outcome == Slept then 1 else 0)
      ensures pos == old(pos) && lines == old(lines) && records == old(records)
      ensures seen == old(seen) && lastIndex == old(lastIndex) && items == old(items)
      ensures done == old(done) && spinner == old(spinner) && doneCalls == old(doneCalls)
    {
      counter := cnt;
      failed, suspended := outcome == Threw || outcome == CallbackThrew, outcome == Slept;
      sleeps := sleeps + if outcome == Slept then 1 else 0;
    }
  }
}
