/**
 * The JavaScript values that flow through getTree: a record field is either a
 * string or `undefined` (modelled as Missing), and records are maps from field
 * name to string. This module also gives the two library operations the code
 * leans on: `[...new Set(xs)]` (Distinct) and the default `Array.prototype.sort()`
 * (SortValues), which compares values by their string form and puts
 * `undefined` last.
 */
module JsValues {

  /** A field value as `d[attr]` yields it; `Missing` is JS `undefined`. */
  datatype Value = Str(s: string) | Missing

  /** One row of the dataset: a field absent from the map reads as `undefined`. */
  type Record = map<string, string>

  /** `d[attr]` */
  function Field(r: Record, attr: string): Value {
    if attr in r then Str(r[attr]) else Missing
  }

  /** `data.map(d => d[attr])`: the column of one attribute. */
  function Column(data: seq<Record>, attr: string): (col: seq<Value>)
    ensures |col| == |data|
    ensures forall i :: 0 <= i < |data| ==> col[i] == Field(data[i], attr)
  {
    seq(|data|, i requires 0 <= i < |data| => Field(data[i], attr))
  }

  // ---------------------------------------------------------------------------
  // The default sort order

  /**
   * Lexicographic order on strings by character (Unicode scalar value), the
   * model of how the default sort compares string forms.
   */
  predicate StrLess(a: string, b: string) {
    if |a| == 0 then |b| > 0
    else if |b| == 0 then false
    else if a[0] != b[0] then a[0] < b[0]
    else StrLess(a[1..], b[1..])
  }

  /** The comparison of the default sort: strings by StrLess, `undefined` after every string. */
  predicate ValueLess(x: Value, y: Value) {
    match x
    case Str(a) => (match y case Str(b) => StrLess(a, b) case Missing => true)
    case Missing => false
  }

  lemma {:induction false} StrLessIrreflexive(a: string)
    ensures !StrLess(a, a)
  {
    if |a| > 0 {
      StrLessIrreflexive(a[1..]);
    }
  }

  lemma {:induction false} StrLessTransitive(a: string, b: string, c: string)
    requires StrLess(a, b) && StrLess(b, c)
    ensures StrLess(a, c)
  {
    if |a| > 0 && a[0] == b[0] && b[0] == c[0] {
      StrLessTransitive(a[1..], b[1..], c[1..]);
    }
  }

  lemma {:induction false} StrLessTotal(a: string, b: string)
    requires a != b
    ensures StrLess(a, b) || StrLess(b, a)
  {
    if |a| > 0 && |b| > 0 && a[0] == b[0] {
      assert a == [a[0]] + a[1..] && b == [b[0]] + b[1..];
      StrLessTotal(a[1..], b[1..]);
    }
  }

  /** ValueLess is a strict total order, so the sorted arrangement of distinct values is unique. */
  lemma ValueLessStrictTotalOrder(x: Value, y: Value, z: Value)
    ensures !ValueLess(x, x)
    ensures ValueLess(x, y) && ValueLess(y, z) ==> ValueLess(x, z)
    ensures x != y ==> ValueLess(x, y) || ValueLess(y, x)
  {
    if x.Str? {
      StrLessIrreflexive(x.s);
      if y.Str? && z.Str? && StrLess(x.s, y.s) && StrLess(y.s, z.s) {
        StrLessTransitive(x.s, y.s, z.s);
      }
      if y.Str? && x != y {
        StrLessTotal(x.s, y.s);
      }
    }
  }

  // ---------------------------------------------------------------------------
  // Sequences of values

  ghost predicate NoDuplicates<T>(s: seq<T>) {
    forall i, j :: 0 <= i < j < |s| ==> s[i] != s[j]
  }

  /** `a` is `b` with some elements left out, the rest in their original order. */
  ghost predicate SubsequenceOf<T>(a: seq<T>, b: seq<T>)
    decreases |b|
  {
    if |a| == 0 then true
    else if |b| == 0 then false
    else
      || (a[|a| - 1] == b[|b| - 1] && SubsequenceOf(a[..|a| - 1], b[..|b| - 1]))
      || SubsequenceOf(a, b[..|b| - 1])
  }

  /** Non-descending under the default sort order. */
  ghost predicate Ascending(s: seq<Value>) {
    forall i, j :: 0 <= i < j < |s| ==> !ValueLess(s[j], s[i])
  }

  ghost predicate StrictlyAscending(s: seq<Value>) {
    forall i, j :: 0 <= i < j < |s| ==> ValueLess(s[i], s[j])
  }

  /** The position of the first occurrence of `v` in `xs`. */
  ghost function FirstIndex<T>(xs: seq<T>, v: T): (k: nat)
    requires v in xs
    ensures k < |xs| && xs[k] == v
    ensures forall i :: 0 <= i < k ==> xs[i] != v
  {
    if xs[0] == v then 0 else 1 + FirstIndex(xs[1..], v)
  }

  /**
   * `[...new Set(xs)]`: each value of `xs` once, in the order of its first
   * occurrence (a Set iterates in insertion order).
   */
  function Distinct(xs: seq<Value>): (d: seq<Value>)
    ensures NoDuplicates(d)
    ensures forall v :: v in d <==> v in xs
    ensures |d| <= |xs|
  {
    if |xs| == 0 then []
    else
      var init := xs[..|xs| - 1];
      var last := xs[|xs| - 1];
      assert xs == init + [last];
      var d := Distinct(init);
      if last in d then d else d + [last]
  }

  /** Distinct keeps first-occurrence order: earlier in the result means first seen earlier in `xs`. */
  lemma {:induction false} DistinctFirstOccurrenceOrder(xs: seq<Value>)
    ensures FirstOccurrenceOrder(Distinct(xs), xs)
  {
    if |xs| > 0 {
      var init, last := xs[..|xs| - 1], xs[|xs| - 1];
      assert xs == init + [last];
      DistinctFirstOccurrenceOrder(init);
      ExtendFirstOccurrenceOrder(Distinct(init), init, last);
    }
  }

  /** `d` lists values of `xs` in the order in which they first occur in `xs`. */
  ghost predicate FirstOccurrenceOrder(d: seq<Value>, xs: seq<Value>)
    requires forall v :: v in d ==> v in xs
  {
    forall i, j :: 0 <= i < j < |d| ==> FirstIndex(xs, d[i]) < FirstIndex(xs, d[j])
  }

  lemma ExtendFirstOccurrenceOrder(d: seq<Value>, init: seq<Value>, last: Value)
    requires forall v :: v in d <==> v in init
    requires FirstOccurrenceOrder(d, init)
    ensures last in d ==> FirstOccurrenceOrder(d, init + [last])
    ensures last !in d ==> FirstOccurrenceOrder(d + [last], init + [last])
  {
    var xs := init + [last];
    var d' := if last in d then d else d + [last];
    forall i, j | 0 <= i < j < |d'|
      ensures FirstIndex(xs, d'[i]) < FirstIndex(xs, d'[j])
    {
      assert d'[i] == d[i];
      FirstIndexOfPrefix(init, last, d[i]);
      if j < |d| {
        FirstIndexOfPrefix(init, last, d[j]);
        assert d'[j] == d[j];
      } else {
        assert FirstIndex(xs, d'[j]) == |init|;
      }
    }
  }

  lemma FirstIndexOfPrefix<T>(init: seq<T>, last: T, v: T)
    requires v in init
    ensures FirstIndex(init + [last], v) == FirstIndex(init, v)
  {
    var xs := init + [last];
    assert xs[FirstIndex(init, v)] == v;
  }

  // ---------------------------------------------------------------------------
  // The default sort

  /** Inserts `x` into an ascending sequence. */
  function Insert(x: Value, s: seq<Value>): (r: seq<Value>)
    requires Ascending(s)
    ensures Ascending(r)
    ensures multiset(r) == multiset(s) + multiset{x}
  {
    if |s| == 0 then [x]
    else if ValueLess(s[0], x) then
      var tail := Insert(x, s[1..]);
      assert s == [s[0]] + s[1..];
      assert forall k :: 0 <= k < |tail| ==> tail[k] in multiset(s[1..]) + multiset{x};
      forall k | 0 <= k < |tail| ensures !ValueLess(tail[k], s[0]) {
        ValueLessStrictTotalOrder(s[0], x, s[0]);
        if tail[k] != x {
          assert tail[k] in s[1..];
        }
      }
      [s[0]] + tail
    else
      forall k | 0 <= k < |s| ensures !ValueLess(s[k], x) {
        ValueLessStrictTotalOrder(s[k], s[0], x);
        ValueLessStrictTotalOrder(s[k], x, s[0]);
        ValueLessStrictTotalOrder(x, s[0], x);
      }
      [x] + s
  }

  /** `Array.prototype.sort()` with no comparator, as an insertion sort on values. */
  function SortValues(xs: seq<Value>): (r: seq<Value>)
    ensures Ascending(r)
    ensures multiset(r) == multiset(xs)
  {
    if |xs| == 0 then []
    else
      assert xs == [xs[0]] + xs[1..];
      Insert(xs[0], SortValues(xs[1..]))
  }

  /** Sorting distinct values yields each of them once, in strictly ascending order. */
  lemma {:induction false} SortDistinctValues(xs: seq<Value>)
    requires NoDuplicates(xs)
    ensures var r := SortValues(xs);
      StrictlyAscending(r) && |r| == |xs| && forall v :: v in r <==> v in xs
  {
    var r := SortValues(xs);
    assert |r| == |multiset(r)| == |multiset(xs)| == |xs|;
    forall v ensures v in r <==> v in xs {
      assert v in r <==> v in multiset(r);
    }
    if |xs| > 0 {
      assert xs == [xs[0]] + xs[1..];
      SortDistinctValues(xs[1..]);
      var rest := SortValues(xs[1..]);
      assert xs[0] !in rest;
      InsertFresh(xs[0], rest);
    }
  }

  lemma {:induction false} InsertFresh(x: Value, s: seq<Value>)
    requires Ascending(s) && StrictlyAscending(s) && x !in s
    ensures StrictlyAscending(Insert(x, s))
  {
    if |s| > 0 {
      if ValueLess(s[0], x) {
        InsertFresh(x, s[1..]);
        var tail := Insert(x, s[1..]);
        assert s == [s[0]] + s[1..];
        forall k | 0 <= k < |tail| ensures ValueLess(s[0], tail[k]) {
          assert tail[k] in multiset(s[1..]) + multiset{x};
          if tail[k] != x {
            assert tail[k] in s[1..];
          }
        }
      } else {
        ValueLessStrictTotalOrder(x, s[0], x);
        forall k | 0 <= k < |s| ensures ValueLess(x, s[k]) {
          ValueLessStrictTotalOrder(x, s[0], s[k]);
        }
      }
    }
  }
}
