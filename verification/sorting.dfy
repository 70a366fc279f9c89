/** The sort behind the table's sorted view: `[...data].sort(comparator)`.

    `Array.prototype.sort` is stable, so for a consistent comparator its
    result is the unique arrangement that is ordered by the comparator and
    keeps rows the comparator calls equal in input order. The model computes
    that arrangement by insertion sort on an immutable sequence: the input is
    never changed and a new sequence is returned. */
module Sorting {
  import opened Values
  import opened Rows

  datatype Direction = Asc | Desc

  /** The comparator: either the one used when the active column cannot be
      found (it answers 0 for every pair) or the one that compares a field in
      a direction. */
  datatype Order = KeepOrder | ByField(field: string, dir: Direction)

  /** The comparator's answer for `(a, b)`: negative when `a` goes first,
      positive when `b` goes first, zero when neither is less. */
  function Compare(ord: Order, a: Row, b: Row): int
  {
    match ord
    case KeepOrder => 0
    case ByField(f, dir) =>
      var x, y := FieldOf(a, f), FieldOf(b, f);
      if Less(x, y) then (if dir == Asc then -1 else 1)
      else if Less(y, x) then (if dir == Asc then 1 else -1)
      else 0
  }

  predicate Before(ord: Order, a: Row, b: Row)
  {
    Compare(ord, a, b) < 0
  }

  /** Swapping the comparator's arguments negates its answer, and a row
      compares equal to itself. On a field mixing kinds, or missing in some
      rows, "compares equal" is not transitive (3 and 1 both compare equal
      to a missing value), so the comparator is consistent in the sense
      `Array.prototype.sort` asks for only on one-kind fields
      (`CompareZeroIsEqualField`). */
  lemma CompareIsAntisymmetric(ord: Order, a: Row, b: Row)
    ensures Compare(ord, a, b) == -Compare(ord, b, a)
    ensures Compare(ord, a, a) == 0
  {
    if ord.ByField? {
      var x, y := FieldOf(a, ord.field), FieldOf(b, ord.field);
      LessIsStrictOrder(x, y, x);
    }
  }

  /** On a field whose two values are of one kind, the comparator answers
      0 exactly for equal values, so "compares equal" is an equivalence
      there. */
  lemma CompareZeroIsEqualField(f: string, dir: Direction, a: Row, b: Row)
    requires SameKind(FieldOf(a, f), FieldOf(b, f))
    ensures Compare(ByField(f, dir), a, b) == 0 <==> FieldOf(a, f) == FieldOf(b, f)
  {
    LessIsStrictOrder(FieldOf(a, f), FieldOf(b, f), FieldOf(a, f));
    if FieldOf(a, f) != FieldOf(b, f) {
      LessTotalOnSameKind(FieldOf(a, f), FieldOf(b, f));
    }
  }

  /** The values 3, missing, 1: each neighbouring pair compares equal, yet
      1 goes before 3. */
  lemma MixedFieldBreaksEquality(dir: Direction)
    ensures var a, b, c := Row(0, map["v" := Int(3)]), Row(1, map[]), Row(2, map["v" := Int(1)]);
      var ord := ByField("v", dir);
      Compare(ord, a, b) == 0 && Compare(ord, b, c) == 0 && Compare(ord, a, c) != 0
  {
  }

  /** What "before" means per direction: ascending puts the smaller field
      first, descending the larger. */
  lemma BeforeByDirection(f: string, a: Row, b: Row)
    ensures Before(ByField(f, Asc), a, b) <==> Less(FieldOf(a, f), FieldOf(b, f))
    ensures Before(ByField(f, Desc), a, b) <==> Less(FieldOf(b, f), FieldOf(a, f))
  {
    LessIsStrictOrder(FieldOf(a, f), FieldOf(b, f), FieldOf(a, f));
  }

  lemma BeforeIsStrictOrder(ord: Order, a: Row, b: Row, c: Row)
    ensures !Before(ord, a, a)
    ensures Before(ord, a, b) && Before(ord, b, c) ==> Before(ord, a, c)
  {
    if ord.ByField? {
      var f := ord.field;
      BeforeByDirection(f, a, b);
      BeforeByDirection(f, b, c);
      BeforeByDirection(f, a, c);
      LessIsStrictOrder(FieldOf(a, f), FieldOf(b, f), FieldOf(c, f));
      LessIsStrictOrder(FieldOf(c, f), FieldOf(b, f), FieldOf(a, f));
    }
  }

  /** The comparator only looks at the compared field. */
  lemma BeforeReadsOnlyField(f: string, dir: Direction, a: Row, a': Row, b: Row)
    requires FieldOf(a, f) == FieldOf(a', f)
    ensures Before(ByField(f, dir), a, b) == Before(ByField(f, dir), a', b)
  {
  }

  /** No row is placed after a row the comparator would put behind it. */
  predicate Sorted(s: seq<Row>, ord: Order)
  {
    forall i, j :: 0 <= i < j < |s| ==> !Before(ord, s[j], s[i])
  }

  /** The rows of `s` whose field `f` holds `v`, in the order of `s`. */
  function RowsWithValue(s: seq<Row>, f: string, v: Value): (r: seq<Row>)
    ensures |r| <= |s|
  {
    if |s| == 0 then []
    else (if FieldOf(s[0], f) == v then [s[0]] else []) + RowsWithValue(s[1..], f, v)
  }

  /** Stability: for every value of the field, the rows holding it appear in
      `r` in the same order as in `s`. */
  ghost predicate Stable(s: seq<Row>, r: seq<Row>, f: string)
  {
    forall v :: RowsWithValue(r, f, v) == RowsWithValue(s, f, v)
  }

  /** Places `x` in front of the first row it goes before, i.e. behind every
      row it does not go before. */
  function Insert(x: Row, s: seq<Row>, ord: Order): (r: seq<Row>)
    ensures |r| == |s| + 1
  {
    if |s| == 0 || Before(ord, x, s[0]) then [x] + s
    else [s[0]] + Insert(x, s[1..], ord)
  }

  /** Inserting adds exactly `x`: every other row keeps its count. */
  lemma {:induction false} InsertPermutes(x: Row, s: seq<Row>, ord: Order)
    ensures multiset(Insert(x, s, ord)) == multiset(s) + multiset{x}
    decreases |s|
  {
    if |s| > 0 && !Before(ord, x, s[0]) {
      InsertPermutes(x, s[1..], ord);
      assert s == [s[0]] + s[1..];
    }
  }

  /** Insertion sort: each row in input order is inserted into the sorted
      arrangement of the rows before it. */
  function Sort(s: seq<Row>, ord: Order): (r: seq<Row>)
    ensures |r| == |s|
  {
    if |s| == 0 then []
    else Insert(s[|s| - 1], Sort(s[..|s| - 1], ord), ord)
  }

  /** A non-empty sequence holds its front part and its last element. */
  lemma MultisetOfSnoc(s: seq<Row>)
    requires |s| > 0
    ensures multiset(s) == multiset(s[..|s| - 1]) + multiset{s[|s| - 1]}
  {
    assert s == s[..|s| - 1] + [s[|s| - 1]];
  }

  /** The sort is a permutation of its input. */
  lemma {:induction false} SortPermutes(s: seq<Row>, ord: Order)
    ensures multiset(Sort(s, ord)) == multiset(s)
    decreases |s|
  {
    if |s| > 0 {
      SortPermutes(s[..|s| - 1], ord);
      InsertPermutes(s[|s| - 1], Sort(s[..|s| - 1], ord), ord);
      MultisetOfSnoc(s);
    }
  }

  /** A row that no row of a sorted sequence goes before can head it. */
  lemma ConsKeepsSorted(h: Row, s: seq<Row>, ord: Order)
    requires Sorted(s, ord)
    requires forall j :: 0 <= j < |s| ==> !Before(ord, s[j], h)
    ensures Sorted([h] + s, ord)
  {
    var r := [h] + s;
    forall i, j | 0 <= i < j < |r|
      ensures !Before(ord, r[j], r[i])
    {
      assert r[j] == s[j - 1];
      if i > 0 {
        assert r[i] == s[i - 1];
      }
    }
  }

  /** When `x` goes before the head of a sorted sequence, no row of it goes
      before `x`. */
  lemma FrontStaysFirst(x: Row, s: seq<Row>, ord: Order)
    requires Sorted(s, ord) && (|s| == 0 || Before(ord, x, s[0]))
    ensures forall j :: 0 <= j < |s| ==> !Before(ord, s[j], x)
  {
    forall j | 0 <= j < |s|
      ensures !Before(ord, s[j], x)
    {
      BeforeIsStrictOrder(ord, s[j], x, s[0]);
      BeforeIsStrictOrder(ord, s[0], x, s[0]);
    }
  }

  /** When `x` does not go before the head of a sorted sequence, nothing
      inserted behind the head goes before it. */
  lemma HeadStaysFirst(x: Row, s: seq<Row>, ord: Order)
    requires Sorted(s, ord) && |s| > 0 && !Before(ord, x, s[0])
    ensures forall j :: 0 <= j < |Insert(x, s[1..], ord)| ==> !Before(ord, Insert(x, s[1..], ord)[j], s[0])
  {
    var rest := Insert(x, s[1..], ord);
    InsertPermutes(x, s[1..], ord);
    forall j | 0 <= j < |rest|
      ensures !Before(ord, rest[j], s[0])
    {
      var y := rest[j];
      assert y in multiset(rest);
      if y != x {
        assert y in multiset(s[1..]);
        var k :| 0 <= k < |s[1..]| && s[1..][k] == y;
        assert s[k + 1] == y;
      }
    }
  }

  lemma {:induction false} InsertKeepsSorted(x: Row, s: seq<Row>, ord: Order)
    requires Sorted(s, ord)
    ensures Sorted(Insert(x, s, ord), ord)
    decreases |s|
  {
    if |s| == 0 || Before(ord, x, s[0]) {
      FrontStaysFirst(x, s, ord);
      ConsKeepsSorted(x, s, ord);
    } else {
      assert Sorted(s[1..], ord) by {
        forall i, j | 0 <= i < j < |s[1..]|
          ensures !Before(ord, s[1..][j], s[1..][i])
        {
          assert s[1..][j] == s[j + 1] && s[1..][i] == s[i + 1];
        }
      }
      InsertKeepsSorted(x, s[1..], ord);
      HeadStaysFirst(x, s, ord);
      ConsKeepsSorted(s[0], Insert(x, s[1..], ord), ord);
    }
  }

  lemma {:induction false} SortIsSorted(s: seq<Row>, ord: Order)
    ensures Sorted(Sort(s, ord), ord)
    decreases |s|
  {
    if |s| > 0 {
      SortIsSorted(s[..|s| - 1], ord);
      InsertKeepsSorted(s[|s| - 1], Sort(s[..|s| - 1], ord), ord);
    }
  }

  lemma {:induction false} RowsWithValueAppend(a: seq<Row>, b: seq<Row>, f: string, v: Value)
    ensures RowsWithValue(a + b, f, v) == RowsWithValue(a, f, v) + RowsWithValue(b, f, v)
    decreases |a|
  {
    if |a| > 0 {
      assert (a + b)[1..] == a[1..] + b;
      RowsWithValueAppend(a[1..], b, f, v);
    } else {
      assert a + b == b;
    }
  }

  lemma RowsWithValueCons(x: Row, s: seq<Row>, f: string, v: Value)
    ensures RowsWithValue([x] + s, f, v) == (if FieldOf(x, f) == v then [x] else []) + RowsWithValue(s, f, v)
  {
    assert ([x] + s)[1..] == s;
  }

  lemma {:induction false} RowsWithValueNone(s: seq<Row>, f: string, v: Value)
    requires forall i :: 0 <= i < |s| ==> FieldOf(s[i], f) != v
    ensures RowsWithValue(s, f, v) == []
    decreases |s|
  {
    if |s| > 0 {
      RowsWithValueNone(s[1..], f, v);
    }
  }

  /** Inserting into a sorted arrangement puts `x` behind every row holding
      the same field value and leaves the other values' rows in order. */
  lemma {:induction false} InsertIsStable(x: Row, s: seq<Row>, f: string, dir: Direction, v: Value)
    requires Sorted(s, ByField(f, dir))
    ensures RowsWithValue(Insert(x, s, ByField(f, dir)), f, v)
         == RowsWithValue(s, f, v) + (if FieldOf(x, f) == v then [x] else [])
    decreases |s|
  {
    var ord := ByField(f, dir);
    if |s| == 0 || Before(ord, x, s[0]) {
      InsertInFrontIsStable(x, s, f, dir, v);
    } else {
      var rest := Insert(x, s[1..], ord);
      assert Insert(x, s, ord) == [s[0]] + rest;
      InsertIsStable(x, s[1..], f, dir, v);
      RowsWithValueCons(s[0], rest, f, v);
      RowsWithValueCons(s[0], s[1..], f, v);
      assert s == [s[0]] + s[1..];
    }
  }

  /** When `x` goes in front, no row of `s` holds its field value. */
  lemma InsertInFrontIsStable(x: Row, s: seq<Row>, f: string, dir: Direction, v: Value)
    requires Sorted(s, ByField(f, dir))
    requires |s| == 0 || Before(ByField(f, dir), x, s[0])
    ensures RowsWithValue(Insert(x, s, ByField(f, dir)), f, v)
         == RowsWithValue(s, f, v) + (if FieldOf(x, f) == v then [x] else [])
  {
    var ord := ByField(f, dir);
    assert Insert(x, s, ord) == [x] + s;
    RowsWithValueCons(x, s, f, v);
    if FieldOf(x, f) == v {
      forall i | 0 <= i < |s|
        ensures FieldOf(s[i], f) != v
      {
        if FieldOf(s[i], f) == v {
          BeforeReadsOnlyField(f, dir, x, s[i], s[0]);
          BeforeIsStrictOrder(ord, s[0], s[0], s[0]);
        }
      }
      RowsWithValueNone(s, f, v);
    }
  }

  /** The sort is stable: rows holding equal field values keep their input
      order, in both directions. */
  lemma {:induction false} SortIsStable(s: seq<Row>, f: string, dir: Direction)
    ensures Stable(s, Sort(s, ByField(f, dir)), f)
    decreases |s|
  {
    var ord := ByField(f, dir);
    forall v
      ensures RowsWithValue(Sort(s, ord), f, v) == RowsWithValue(s, f, v)
    {
      SortIsStableAt(s, f, dir, v);
    }
  }

  lemma {:induction false} SortIsStableAt(s: seq<Row>, f: string, dir: Direction, v: Value)
    ensures RowsWithValue(Sort(s, ByField(f, dir)), f, v) == RowsWithValue(s, f, v)
    decreases |s|
  {
    var ord := ByField(f, dir);
    if |s| > 0 {
      var init, last := s[..|s| - 1], s[|s| - 1];
      var tail := if FieldOf(last, f) == v then [last] else [];
      SortIsSorted(init, ord);
      calc {
        RowsWithValue(Sort(s, ord), f, v);
        RowsWithValue(Insert(last, Sort(init, ord), ord), f, v);
        { InsertIsStable(last, Sort(init, ord), f, dir, v); }
        RowsWithValue(Sort(init, ord), f, v) + tail;
        { SortIsStableAt(init, f, dir, v); }
        RowsWithValue(init, f, v) + tail;
        { RowsWithValueAppend(init, [last], f, v); }
        RowsWithValue(init + [last], f, v);
        { assert s == init + [last]; }
        RowsWithValue(s, f, v);
      }
    }
  }

  /** Every row's value in field `f` has the kind of `w`: all numbers, all
      strings, or all missing. */
  predicate OneKind(s: seq<Row>, f: string, w: Value)
  {
    forall i :: 0 <= i < |s| ==> SameKind(FieldOf(s[i], f), w)
  }

  lemma {:induction false} RowsWithValueMember(s: seq<Row>, f: string, v: Value, x: Row)
    ensures x in RowsWithValue(s, f, v) <==> x in s && FieldOf(x, f) == v
    decreases |s|
  {
    if |s| > 0 {
      RowsWithValueMember(s[1..], f, v, x);
      assert s == [s[0]] + s[1..];
    }
  }

  /** Two ordered arrangements of rows of one kind that agree, value by
      value, on the order of the rows holding each value are the same. */
  lemma {:induction false} StableOrderIsUnique(r: seq<Row>, t: seq<Row>, f: string, dir: Direction, w: Value)
    requires Sorted(r, ByField(f, dir)) && Sorted(t, ByField(f, dir))
    requires OneKind(r, f, w) && OneKind(t, f, w)
    requires forall v :: RowsWithValue(r, f, v) == RowsWithValue(t, f, v)
    ensures r == t
    decreases |r|
  {
    var ord := ByField(f, dir);
    if |r| == 0 || |t| == 0 {
      if |r| > 0 {
        RowsWithValueMember(r, f, FieldOf(r[0], f), r[0]);
        RowsWithValueMember(t, f, FieldOf(r[0], f), r[0]);
      }
      if |t| > 0 {
        RowsWithValueMember(t, f, FieldOf(t[0], f), t[0]);
        RowsWithValueMember(r, f, FieldOf(t[0], f), t[0]);
      }
    } else {
      var a, b := r[0], t[0];
      var va, vb := FieldOf(a, f), FieldOf(b, f);
      if va != vb {
        LessTotalOnSameKind(va, vb);
        BeforeByDirection(f, a, b);
        BeforeByDirection(f, b, a);
        RowsWithValueMember(r, f, vb, b);
        RowsWithValueMember(t, f, vb, b);
        RowsWithValueMember(r, f, va, a);
        RowsWithValueMember(t, f, va, a);
        assert false;
      }
      var r', t' := r[1..], t[1..];
      assert r == [a] + r' && t == [b] + t';
      forall v
        ensures RowsWithValue(r', f, v) == RowsWithValue(t', f, v)
      {
        RowsWithValueCons(a, r', f, v);
        RowsWithValueCons(b, t', f, v);
        var x, y := RowsWithValue(r', f, v), RowsWithValue(t', f, v);
        if v == va {
          assert ([a] + x)[1..] == x && ([b] + y)[1..] == y;
        } else {
          assert [] + x == x && [] + y == y;
        }
      }
      RowsWithValueCons(a, r', f, va);
      RowsWithValueCons(b, t', f, va);
      assert a == RowsWithValue(r, f, va)[0] == RowsWithValue(t, f, va)[0] == b;
      assert Sorted(r', ord) && Sorted(t', ord) by {
        forall i, j | 0 <= i < j < |r'|
          ensures !Before(ord, r'[j], r'[i])
        {
          assert r'[j] == r[j + 1] && r'[i] == r[i + 1];
        }
        forall i, j | 0 <= i < j < |t'|
          ensures !Before(ord, t'[j], t'[i])
        {
          assert t'[j] == t[j + 1] && t'[i] == t[i + 1];
        }
      }
      assert OneKind(r', f, w) && OneKind(t', f, w) by {
        forall i | 0 <= i < |r'| ensures SameKind(FieldOf(r'[i], f), w) {
          assert r'[i] == r[i + 1];
        }
        forall i | 0 <= i < |t'| ensures SameKind(FieldOf(t'[i], f), w) {
          assert t'[i] == t[i + 1];
        }
      }
      StableOrderIsUnique(r', t', f, dir, w);
    }
  }

  /** The rows of a stable rearrangement are rows of the input. */
  lemma StableKeepsKind(s: seq<Row>, r: seq<Row>, f: string, w: Value)
    requires OneKind(s, f, w) && Stable(s, r, f)
    ensures OneKind(r, f, w)
  {
    forall i | 0 <= i < |r|
      ensures SameKind(FieldOf(r[i], f), w)
    {
      var v := FieldOf(r[i], f);
      RowsWithValueMember(r, f, v, r[i]);
      RowsWithValueMember(s, f, v, r[i]);
      var k :| 0 <= k < |s| && s[k] == r[i];
    }
  }

  /** When the sort field holds values of one kind, the model's sort is the
      only arrangement that is ordered by the comparator and stable, so it is
      what every stable sort with this comparator returns. */
  lemma SortIsTheStableSort(s: seq<Row>, r: seq<Row>, f: string, dir: Direction, w: Value)
    requires OneKind(s, f, w)
    requires Sorted(r, ByField(f, dir)) && Stable(s, r, f)
    ensures r == Sort(s, ByField(f, dir))
  {
    var t := Sort(s, ByField(f, dir));
    SortIsSorted(s, ByField(f, dir));
    SortIsStable(s, f, dir);
    StableKeepsKind(s, r, f, w);
    StableKeepsKind(s, t, f, w);
    StableOrderIsUnique(r, t, f, dir, w);
  }

  /** With the comparator that answers 0 throughout, the sort returns the
      input order unchanged. */
  lemma {:induction false} SortKeepOrder(s: seq<Row>)
    ensures Sort(s, KeepOrder) == s
    decreases |s|
  {
    if |s| > 0 {
      SortKeepOrder(s[..|s| - 1]);
      InsertKeepOrderAppends(s[|s| - 1], s[..|s| - 1]);
      assert s == s[..|s| - 1] + [s[|s| - 1]];
    }
  }

  lemma {:induction false} InsertKeepOrderAppends(x: Row, s: seq<Row>)
    ensures Insert(x, s, KeepOrder) == s + [x]
    decreases |s|
  {
    if |s| > 0 {
      InsertKeepOrderAppends(x, s[1..]);
      assert s == [s[0]] + s[1..];
    }
  }

  // ---------------------------------------------------------------------
  // The same sort as a loop

  lemma InsertAtSuffix(x: Row, s: seq<Row>, ord: Order, k: nat)
    requires k <= |s|
    ensures k == |s| || Before(ord, x, s[k]) ==> Insert(x, s[k..], ord) == [x] + s[k..]
    ensures k < |s| && !Before(ord, x, s[k]) ==>
              Insert(x, s[k..], ord) == [s[k]] + Insert(x, s[k + 1..], ord)
  {
    if k < |s| {
      assert s[k..][1..] == s[k + 1..];
    }
  }

  /** Moving the element at `k` from the spliced part into the prefix. */
  lemma SpliceStep(s: seq<Row>, k: nat, t: seq<Row>)
    requires k < |s|
    ensures s[..k] + ([s[k]] + t) == s[..k + 1] + t
  {
    assert s[..k + 1] == s[..k] + [s[k]];
  }

  /** One step of the scan: past a row that `x` does not go before. */
  lemma InsertScanStep(x: Row, s: seq<Row>, ord: Order, k: nat)
    requires k < |s| && !Before(ord, x, s[k])
    requires Insert(x, s, ord) == s[..k] + Insert(x, s[k..], ord)
    ensures Insert(x, s, ord) == s[..k + 1] + Insert(x, s[k + 1..], ord)
  {
    InsertAtSuffix(x, s, ord, k);
    SpliceStep(s, k, Insert(x, s[k + 1..], ord));
  }

  /** Finds the insertion point by a forward scan and splices `x` in. */
  method InsertRow(x: Row, s: seq<Row>, ord: Order) returns (r: seq<Row>)
    ensures r == Insert(x, s, ord)
  {
    var k := 0;
    assert s[k..] == s && s[..k] == [];
    while k < |s| && !Before(ord, x, s[k])
      invariant 0 <= k <= |s|
      invariant Insert(x, s, ord) == s[..k] + Insert(x, s[k..], ord)
    {
      InsertScanStep(x, s, ord, k);
      k := k + 1;
    }
    InsertAtSuffix(x, s, ord, k);
    r := s[..k] + ([x] + s[k..]);
  }

  /** Sorting one more row inserts it into the sorted prefix. */
  lemma SortPrefixStep(data: seq<Row>, ord: Order, i: nat)
    requires i < |data|
    ensures Sort(data[..i + 1], ord) == Insert(data[i], Sort(data[..i], ord), ord)
  {
    assert data[..i + 1][..i] == data[..i];
  }

  /** Sorts a copy of `data`: the result is the sorted, stable permutation. */
  method InsertionSort(data: seq<Row>, ord: Order) returns (r: seq<Row>)
    ensures r == Sort(data, ord)
    ensures multiset(r) == multiset(data)
    ensures Sorted(r, ord)
  {
    r := [];
    var i := 0;
    while i < |data|
      invariant 0 <= i <= |data|
      invariant r == Sort(data[..i], ord)
    {
      SortPrefixStep(data, ord, i);
      r := InsertRow(data[i], r, ord);
      i := i + 1;
    }
    assert data[..|data|] == data;
    SortIsSorted(data, ord);
    SortPermutes(data, ord);
  }
}
