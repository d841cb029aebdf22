/** JavaScript value semantics the dashboard's code relies on: truthiness,
    loose comparisons, string conversion and string ordering.  Numbers are
    modelled as integers (the records carry counts, ordinals and exit codes). */
module Js {

  datatype Option<T> = None | Some(value: T)

  /** A field value of a parsed record. */
  datatype Value = Undefined | Null | Bool(b: bool) | Num(n: int) | Str(s: string)

  /** `if (v)` */
  predicate Truthy(v: Value) {
    match v
    case Undefined => false
    case Null => false
    case Bool(b) => b
    case Num(n) => n != 0
    case Str(s) => s != ""
  }

  /** `v == null` (true for both null and undefined) */
  predicate IsNullish(v: Value) {
    v.Undefined? || v.Null?
  }

  predicate IsDigit(c: char) {
    '0' <= c <= '9'
  }

  /** The value of a string of decimal digits, read left to right. */
  function DigitsValue(s: string): (r: Option<nat>)
    ensures r.Some? <==> forall i :: 0 <= i < |s| ==> IsDigit(s[i])
  {
    if s == [] then Some(0)
    else
      match DigitsValue(s[..|s| - 1])
      case None => None
      case Some(v) =>
        var c := s[|s| - 1];
        if IsDigit(c) then Some(10 * v + (c as int - '0' as int)) else None
  }

  /** `Number(v)` restricted to integers; None stands for NaN.  Strings are
      decimal literals with an optional leading '-' (surrounding white space,
      fractions and exponents are not modelled). */
  function ToNumber(v: Value): Option<int> {
    match v
    case Undefined => None
    case Null => Some(0)
    case Bool(b) => Some(if b then 1 else 0)
    case Num(n) => Some(n)
    case Str(s) => StrToNumber(s)
  }

  function StrToNumber(s: string): Option<int> {
    if |s| > 1 && s[0] == '-' then
      var d := DigitsValue(s[1..]);
      if d.None? then None else Some(0 - d.value)
    else
      var d := DigitsValue(s);
      if d.None? then None else Some(d.value + 0)
  }

  /** `v == k` for a number literal `k` (null and undefined equal no number). */
  predicate LooseEqualsNumber(v: Value, k: int) {
    !IsNullish(v) && ToNumber(v) == Some(k)
  }

  /** `v == true` */
  predicate LooseEqualsTrue(v: Value) {
    LooseEqualsNumber(v, 1)
  }

  /** `v == 'lit'` for a string literal. */
  predicate LooseEqualsString(v: Value, lit: string) {
    match v
    case Undefined => false
    case Null => false
    case Str(s) => s == lit
    case _ => ToNumber(Str(lit)).Some? && ToNumber(v) == ToNumber(Str(lit))
  }

  /** `v > k` for a number literal `k`. */
  predicate GreaterThanNumber(v: Value, k: int) {
    ToNumber(v).Some? && ToNumber(v).value > k
  }

  /** `a > b` for two record values: strings compare as `StrLess` orders
      them, anything else numerically (NaN compares false). */
  predicate Greater(a: Value, b: Value) {
    if a.Str? && b.Str? then StrLess(b.s, a.s)
    else ToNumber(a).Some? && ToNumber(b).Some? && ToNumber(a).value > ToNumber(b).value
  }

  /** Decimal digits of a natural number. */
  function NatText(n: nat): (r: string)
    ensures |r| > 0
    ensures forall i :: 0 <= i < |r| ==> IsDigit(r[i])
  {
    var d := ['0' + (n % 10) as char];
    if n < 10 then d else NatText(n / 10) + d
  }

  function IntText(n: int): string {
    if n < 0 then "-" + NatText(-n) else NatText(n)
  }

  /** `String(v)`, as `col.text(v)` and string concatenation render it. */
  function ToText(v: Value): string {
    match v
    case Undefined => "undefined"
    case Null => "null"
    case Bool(b) => if b then "true" else "false"
    case Num(n) => IntText(n)
    case Str(s) => s
  }

  /** JavaScript's `<` on strings, lexicographic by character. A Dafny
      `char` is a Unicode scalar value, while JavaScript compares UTF-16
      code units; the two orders agree except where a character above
      U+FFFF meets one in U+E000..U+FFFF. */
  predicate StrLess(a: string, b: string) {
    if a == [] then b != []
    else if b == [] then false
    else if a[0] != b[0] then a[0] < b[0]
    else StrLess(a[1..], b[1..])
  }

  predicate StrictlySorted(l: seq<string>) {
    forall i, j :: 0 <= i < j < |l| ==> StrLess(l[i], l[j])
  }

  /** The position a filter list gives a new entry: before the first entry
      whose text is greater, else at the end. */
  function InsertionPoint(l: seq<string>, x: string): (k: nat)
    ensures k <= |l|
    ensures forall i :: 0 <= i < k ==> !StrLess(x, l[i])
    ensures k < |l| ==> StrLess(x, l[k])
  {
    if l == [] then 0
    else if StrLess(x, l[0]) then 0
    else 1 + InsertionPoint(l[1..], x)
  }

  /** A search that stops at the first greater entry, or runs off the end,
      has found the insertion point. */
  lemma InsertionPointIs(l: seq<string>, x: string, k: nat)
    requires k <= |l| && (forall i :: 0 <= i < k ==> !StrLess(x, l[i])) && (k < |l| ==> StrLess(x, l[k]))
    ensures k == InsertionPoint(l, x)
  {
  }

  function InsertAt(l: seq<string>, k: nat, x: string): seq<string>
    requires k <= |l|
  {
    l[..k] + [x] + l[k..]
  }

  // ---------------------------------------------------------------------
  // Lemmas

  /** Reading back a number's decimal text gives the number. */
  lemma {:induction false} NatTextRoundTrip(n: nat)
    ensures DigitsValue(NatText(n)) == Some(n)
  {
    var d := ['0' + (n % 10) as char];
    if n < 10 {
      assert NatText(n) == d;
      assert d[..0] == [];
    } else {
      NatTextRoundTrip(n / 10);
      var t := NatText(n / 10) + d;
      assert t == NatText(n);
      assert t[..|t| - 1] == NatText(n / 10);
    }
  }

  lemma IntTextRoundTrip(n: int)
    ensures ToNumber(Str(IntText(n))) == Some(n)
  {
    if n < 0 {
      NatTextRoundTrip(-n);
      var t := "-" + NatText(-n);
      assert t[1..] == NatText(-n);
    } else {
      NatTextRoundTrip(n);
      assert NatText(n)[0] != '-';
    }
  }

  /** Different numbers have different decimal texts. */
  lemma NatTextInjective(m: nat, n: nat)
    ensures NatText(m) == NatText(n) <==> m == n
  {
    if NatText(m) == NatText(n) {
      NatTextRoundTrip(m);
      NatTextRoundTrip(n);
    }
  }

  lemma {:induction false} StrLessIrreflexive(a: string)
    ensures !StrLess(a, a)
  {
    if a != [] { StrLessIrreflexive(a[1..]); }
  }

  lemma {:induction false} StrLessTransitive(a: string, b: string, c: string)
    requires StrLess(a, b) && StrLess(b, c)
    ensures StrLess(a, c)
  {
    if a != [] && b != [] && c != [] && a[0] == b[0] && b[0] == c[0] {
      StrLessTransitive(a[1..], b[1..], c[1..]);
    }
  }

  lemma {:induction false} StrLessTotal(a: string, b: string)
    ensures a == b || StrLess(a, b) || StrLess(b, a)
  {
    if a != [] && b != [] && a[0] == b[0] {
      StrLessTotal(a[1..], b[1..]);
      if a[1..] == b[1..] {
        assert a == [a[0]] + a[1..] && b == [b[0]] + b[1..];
      }
    }
  }

  /** Inserting a new entry at its insertion point keeps a filter list
      strictly sorted, so without duplicates. */
  lemma InsertKeepsSorted(l: seq<string>, x: string)
    requires StrictlySorted(l) && x !in l
    ensures StrictlySorted(InsertAt(l, InsertionPoint(l, x), x))
    ensures multiset(InsertAt(l, InsertionPoint(l, x), x)) == multiset(l) + multiset{x}
  {
    var k := InsertionPoint(l, x);
    var r := InsertAt(l, k, x);
    forall i | 0 <= i < k ensures StrLess(l[i], x) {
      StrLessTotal(l[i], x);
    }
    forall i, j | 0 <= i < j < |r| ensures StrLess(r[i], r[j]) {
      if j < k {
      } else if j == k {
        assert r[j] == x && r[i] == l[i];
      } else if i == k {
        assert r[i] == x && r[j] == l[j - 1];
        if j - 1 > k { StrLessTransitive(x, l[k], l[j - 1]); }
      } else if i < k {
        assert r[i] == l[i] && r[j] == l[j - 1];
      } else {
        assert r[i] == l[i - 1] && r[j] == l[j - 1];
      }
    }
    calc {
      multiset(r);
      multiset(l[..k]) + multiset([x]) + multiset(l[k..]);
      { assert l == l[..k] + l[k..]; }
      multiset(l) + multiset{x};
    }
  }

  /** A loose comparison with a non-numeric string literal is string equality. */
  lemma LooseEqualsWord(v: Value, lit: string)
    requires ToNumber(Str(lit)) == None
    ensures LooseEqualsString(v, lit) <==> v == Str(lit)
  {
  }
}
