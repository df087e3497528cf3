/** The two record sorts of the chart page. Each one reorders the caller's
    array in place with `Array.prototype.sort` and a subtracting comparator,
    then returns that same array. `Array.prototype.sort` must be stable
    (ECMA-262, ECMAScript 2019, section 22.1.3.27), so records with equal
    `yAxis` keep their relative order. */
module SortingFunctions {

  /** A record in graph format: the category on the x axis and the measured value on the y axis. */
  datatype Rec = Rec(xAxis: string, yAxis: int)

  /** Which of the two comparators is in use. */
  datatype Order = Ascending | Descending

  /** The comparator given to `sort`. A positive result puts `b` before `a`. */
  function Compare(order: Order, a: Rec, b: Rec): int {
    match order
    case Ascending => a.yAxis - b.yAxis
    case Descending => b.yAxis - a.yAxis
  }

  /** No pair of records is out of order under the comparator. */
  predicate Sorted(order: Order, s: seq<Rec>) {
    forall i, j :: 0 <= i < j < |s| ==> Compare(order, s[i], s[j]) <= 0
  }

  /** The records of `s` whose `yAxis` is `v`, in the order they appear in `s`.
      A sort is stable when it leaves every such subsequence unchanged. */
  function Ties(s: seq<Rec>, v: int): seq<Rec> {
    if s == [] then []
    else (if s[0].yAxis == v then [s[0]] else []) + Ties(s[1..], v)
  }

  /** No two records share a `yAxis` value. */
  predicate DistinctValues(s: seq<Rec>) {
    forall i, j :: 0 <= i < j < |s| ==> s[i].yAxis != s[j].yAxis
  }

  function Reverse(s: seq<Rec>): (r: seq<Rec>)
    ensures |r| == |s|
    ensures forall k :: 0 <= k < |s| ==> r[k] == s[|s| - 1 - k]
  {
    if s == [] then [] else Reverse(s[1..]) + [s[0]]
  }

  /** Places `x` after the records of `t` that the comparator does not put after it,
      scanning from the end as a stable insertion does. */
  function Insert(order: Order, x: Rec, t: seq<Rec>): seq<Rec>
    decreases |t|
  {
    if t == [] || Compare(order, t[|t| - 1], x) <= 0 then t + [x]
    else Insert(order, x, t[..|t| - 1]) + [t[|t| - 1]]
  }

  /** The result of a stable sort of `s` under the comparator: `s` inserted record by record. */
  function StableSort(order: Order, s: seq<Rec>): seq<Rec>
    decreases |s|
  {
    if s == [] then [] else Insert(order, s[|s| - 1], StableSort(order, s[..|s| - 1]))
  }

  // ----- Insert -----

  /** Inserting `x` puts it right after the last record the comparator does not put after it. */
  lemma {:induction false} InsertAt(order: Order, x: Rec, t: seq<Rec>, j: nat)
    requires j <= |t|
    requires j == 0 || Compare(order, t[j - 1], x) <= 0
    requires forall k :: j <= k < |t| ==> Compare(order, t[k], x) > 0
    ensures Insert(order, x, t) == t[..j] + [x] + t[j..]
    decreases |t|
  {
    if j < |t| {
      var t' := t[..|t| - 1];
      InsertAt(order, x, t', j);
      assert t'[..j] == t[..j];
      assert t'[j..] + [t[|t| - 1]] == t[j..];
    } else {
      assert t[..j] == t;
    }
  }

  lemma {:induction false} InsertPermutes(order: Order, x: Rec, t: seq<Rec>)
    ensures multiset(Insert(order, x, t)) == multiset(t) + multiset{x}
    decreases |t|
  {
    if t != [] && Compare(order, t[|t| - 1], x) > 0 {
      var t' := t[..|t| - 1];
      InsertPermutes(order, x, t');
      assert t == t' + [t[|t| - 1]];
    }
  }

  lemma {:induction false} InsertKeepsSorted(order: Order, x: Rec, t: seq<Rec>)
    requires Sorted(order, t)
    ensures Sorted(order, Insert(order, x, t))
    decreases |t|
  {
    if t != [] && Compare(order, t[|t| - 1], x) > 0 {
      var t' := t[..|t| - 1];
      InsertKeepsSorted(order, x, t');
      InsertPermutes(order, x, t');
      var r' := Insert(order, x, t');
      var last := t[|t| - 1];
      forall k | 0 <= k < |r'| ensures Compare(order, r'[k], last) <= 0 {
        assert r'[k] in multiset(r');
        assert r'[k] == x || r'[k] in t';
      }
    }
  }

  lemma {:induction false} TiesAppend(a: seq<Rec>, b: seq<Rec>, v: int)
    ensures Ties(a + b, v) == Ties(a, v) + Ties(b, v)
    decreases |a|
  {
    if a != [] {
      TiesAppend(a[1..], b, v);
      assert (a + b)[1..] == a[1..] + b;
    } else {
      assert a + b == b;
    }
  }

  lemma {:induction false} InsertKeepsTies(order: Order, x: Rec, t: seq<Rec>, v: int)
    ensures Ties(Insert(order, x, t), v) == Ties(t, v) + Ties([x], v)
    decreases |t|
  {
    if t == [] || Compare(order, t[|t| - 1], x) <= 0 {
      TiesAppend(t, [x], v);
    } else {
      var t', last := t[..|t| - 1], t[|t| - 1];
      assert t == t' + [last];
      InsertKeepsTies(order, x, t', v);
      TiesAppend(Insert(order, x, t'), [last], v);
      TiesAppend(t', [last], v);
      // `last` and `x` have different values, so at most one of them is kept
      assert Ties([x], v) == [] || Ties([last], v) == [];
    }
  }

  // ----- StableSort -----

  /** The result is non-decreasing (Ascending) or non-increasing (Descending) in `yAxis`. */
  lemma {:induction false} StableSortIsSorted(order: Order, s: seq<Rec>)
    ensures Sorted(order, StableSort(order, s))
    decreases |s|
  {
    if s != [] {
      StableSortIsSorted(order, s[..|s| - 1]);
      InsertKeepsSorted(order, s[|s| - 1], StableSort(order, s[..|s| - 1]));
    }
  }

  /** The result holds exactly the records of the input: it is a permutation of it. */
  lemma {:induction false} StableSortIsPermutation(order: Order, s: seq<Rec>)
    ensures multiset(StableSort(order, s)) == multiset(s)
    decreases |s|
  {
    if s != [] {
      var s', x := s[..|s| - 1], s[|s| - 1];
      StableSortIsPermutation(order, s');
      InsertPermutes(order, x, StableSort(order, s'));
      assert StableSort(order, s) == Insert(order, x, StableSort(order, s'));
      assert s == s' + [x];
      assert multiset(s) == multiset(s') + multiset([x]);
    }
  }

  /** Records with equal `yAxis` keep their original relative order. */
  lemma {:induction false} StableSortIsStable(order: Order, s: seq<Rec>, v: int)
    ensures Ties(StableSort(order, s), v) == Ties(s, v)
    decreases |s|
  {
    if s != [] {
      var s' := s[..|s| - 1];
      StableSortIsStable(order, s', v);
      InsertKeepsTies(order, s[|s| - 1], StableSort(order, s'), v);
      assert s == s' + [s[|s| - 1]];
      TiesAppend(s', [s[|s| - 1]], v);
    }
  }

  /** A non-empty sequence keeps at least its first record under that record's value. */
  lemma HeadIsKept(s: seq<Rec>)
    ensures s != [] ==> Ties(s, s[0].yAxis) != []
  {
  }

  lemma {:induction false} TiesOfHead(s: seq<Rec>)
    requires s != []
    ensures Ties(s, s[0].yAxis) == [s[0]] + Ties(s[1..], s[0].yAxis)
  {
  }

  /** A record kept by `Ties` is a record of the sequence with that value. */
  lemma {:induction false} TiesMember(s: seq<Rec>, v: int, r: Rec)
    requires r in Ties(s, v)
    ensures r in s && r.yAxis == v
    decreases |s|
  {
    if s[0].yAxis == v && r == s[0] {
    } else {
      TiesMember(s[1..], v, r);
    }
  }

  /** In sorted sequences that keep the same records of the first value of each, the first
      records have the same value: each is at least as early as any record of the other. */
  lemma SameFirstValue(order: Order, t: seq<Rec>, u: seq<Rec>)
    requires Sorted(order, t) && Sorted(order, u) && t != [] && u != []
    requires Ties(t, u[0].yAxis) == Ties(u, u[0].yAxis)
    requires Ties(t, t[0].yAxis) == Ties(u, t[0].yAxis)
    ensures t[0].yAxis == u[0].yAxis
  {
    TiesOfHead(u);
    TiesMember(t, u[0].yAxis, u[0]);
    TiesOfHead(t);
    TiesMember(u, t[0].yAxis, t[0]);
    var i :| 0 <= i < |t| && t[i] == u[0];
    var k :| 0 <= k < |u| && u[k] == t[0];
    assert i == 0 || Compare(order, t[0], t[i]) <= 0;
    assert k == 0 || Compare(order, u[0], u[k]) <= 0;
  }

  /** Dropping the same first record from both sides keeps the kept records equal. */
  lemma TailsKeepTies(t: seq<Rec>, u: seq<Rec>, v: int)
    requires t != [] && u != [] && t[0] == u[0]
    requires Ties(t, v) == Ties(u, v)
    ensures Ties(t[1..], v) == Ties(u[1..], v)
  {
    var h := if t[0].yAxis == v then [t[0]] else [];
    assert Ties(t, v) == h + Ties(t[1..], v);
    assert Ties(u, v) == h + Ties(u[1..], v);
    assert Ties(t[1..], v) == Ties(t, v)[|h|..];
    assert Ties(u[1..], v) == Ties(u, v)[|h|..];
  }

  /** Two sorted sequences that agree on the records of every `yAxis` value are equal:
      a stable sort has exactly one possible result. */
  lemma {:induction false} StableResultIsUnique(order: Order, t: seq<Rec>, u: seq<Rec>)
    requires Sorted(order, t) && Sorted(order, u)
    requires forall v :: Ties(t, v) == Ties(u, v)
    ensures t == u
    decreases |t|
  {
    if t == [] || u == [] {
      HeadIsKept(t);
      HeadIsKept(u);
    } else {
      SameFirstValue(order, t, u);
      TiesOfHead(t);
      TiesOfHead(u);
      var v0 := t[0].yAxis;
      assert Ties(t, v0) == Ties(u, v0);
      assert Ties(t, v0)[0] == t[0];
      assert Ties(u, v0)[0] == u[0];
      forall v ensures Ties(t[1..], v) == Ties(u[1..], v) {
        TailsKeepTies(t, u, v);
      }
      StableResultIsUnique(order, t[1..], u[1..]);
      assert t == [t[0]] + t[1..];
      assert u == [u[0]] + u[1..];
    }
  }

  /** Sorting an array that is already sorted in the same direction leaves it unchanged. */
  lemma {:induction false} SortingSortedIsIdentity(order: Order, s: seq<Rec>)
    requires Sorted(order, s)
    ensures StableSort(order, s) == s
  {
    StableSortIsSorted(order, s);
    forall v ensures Ties(StableSort(order, s), v) == Ties(s, v) {
      StableSortIsStable(order, s, v);
    }
    StableResultIsUnique(order, StableSort(order, s), s);
  }

  lemma {:induction false} TiesOfReverse(s: seq<Rec>, v: int)
    ensures Ties(Reverse(s), v) == Reverse(Ties(s, v))
    decreases |s|
  {
    if s != [] {
      TiesOfReverse(s[1..], v);
      TiesAppend(Reverse(s[1..]), [s[0]], v);
      var h := if s[0].yAxis == v then [s[0]] else [];
      var rest := Ties(s[1..], v);
      assert Reverse(h + rest) == Reverse(rest) + Reverse(h) by {
        ReverseAppend(h, rest);
      }
    }
  }

  lemma ReverseAppend(a: seq<Rec>, b: seq<Rec>)
    ensures Reverse(a + b) == Reverse(b) + Reverse(a)
  {
    assert forall k :: 0 <= k < |a + b| ==> Reverse(a + b)[k] == (Reverse(b) + Reverse(a))[k];
  }

  /** Without repeated values, a value picks out at most one record. */
  lemma {:induction false} DistinctTies(s: seq<Rec>, v: int)
    requires DistinctValues(s)
    ensures |Ties(s, v)| <= 1
    decreases |s|
  {
    if s != [] {
      DistinctTies(s[1..], v);
      if s[0].yAxis == v && Ties(s[1..], v) != [] {
        TiesMember(s[1..], v, Ties(s[1..], v)[0]);
        assert false;
      }
    }
  }

  lemma ReverseSortedAscending(s: seq<Rec>)
    requires Sorted(Ascending, s)
    ensures Sorted(Descending, Reverse(s))
  {
  }

  /** When all `yAxis` values are distinct, sorting descending gives exactly the reverse
      of sorting ascending. */
  lemma DescendingReversesAscending(s: seq<Rec>)
    requires DistinctValues(s)
    ensures StableSort(Descending, s) == Reverse(StableSort(Ascending, s))
  {
    var up := StableSort(Ascending, s);
    var down := StableSort(Descending, s);
    StableSortIsSorted(Ascending, s);
    StableSortIsSorted(Descending, s);
    ReverseSortedAscending(up);
    forall v ensures Ties(down, v) == Ties(Reverse(up), v) {
      StableSortIsStable(Ascending, s, v);
      StableSortIsStable(Descending, s, v);
      TiesOfReverse(up, v);
      DistinctTies(s, v);
      var w := Ties(s, v);
      assert Reverse(w) == w;
    }
    StableResultIsUnique(Descending, down, Reverse(up));
  }

  // ----- the in-place sorts -----

  /** One step of the insertion sort: moves `a[i]` left past the records of the sorted
      prefix `a[..i]` that the comparator puts after it. */
  method InsertStep(order: Order, a: array<Rec>, i: nat)
    requires i < a.Length
    modifies a
    ensures a[..i + 1] == Insert(order, old(a[i]), old(a[..i]))
    ensures a[i + 1..] == old(a[i + 1..])
  {
    var x := a[i];
    ghost var t := a[..i];
    var j := i;
    while j > 0 && Compare(order, a[j - 1], x) > 0
      invariant 0 <= j <= i
      invariant forall k :: 0 <= k < j ==> a[k] == t[k]
      invariant forall k :: j < k <= i ==> a[k] == t[k - 1]
      invariant forall k :: i < k < a.Length ==> a[k] == old(a[k])
      invariant forall k :: j <= k < i ==> Compare(order, t[k], x) > 0
    {
      a[j] := a[j - 1];
      j := j - 1;
    }
    a[j] := x;
    InsertAt(order, x, t, j);
    ghost var r := t[..j] + [x] + t[j..];
    assert |r| == i + 1;
    forall k | 0 <= k <= i ensures a[k] == r[k] {
      if k < j {
        assert r[k] == t[k];
      } else if k > j {
        assert r[k] == t[k - 1];
      }
    }
    assert a[..i + 1] == r;
  }

  lemma StableSortStep(order: Order, s: seq<Rec>, i: nat)
    requires i < |s|
    ensures StableSort(order, s[..i + 1]) == Insert(order, s[i], StableSort(order, s[..i]))
  {
    assert s[..i + 1][..i] == s[..i];
  }

  /** Stable insertion sort of the caller's array under the comparator for `order`. */
  method SortInPlace(order: Order, a: array<Rec>)
    modifies a
    ensures a[..] == StableSort(order, old(a[..]))
  {
    ghost var s0 := a[..];
    var i := 0;
    while i < a.Length
      invariant 0 <= i <= a.Length
      invariant a[..i] == StableSort(order, s0[..i])
      invariant a[i..] == s0[i..]
    {
      assert a[i] == s0[i];
      InsertStep(order, a, i);
      StableSortStep(order, s0, i);
      i := i + 1;
    }
    assert a[..] == a[..a.Length];
    assert s0 == s0[..a.Length];
  }

  /** `sortByYAxis`: sorts the caller's array ascending by `yAxis` with a subtracting
      comparator and returns that same array. */
  method SortByYAxis(data: array<Rec>) returns (sorted: array<Rec>)
    modifies data
    ensures sorted == data
    ensures Sorted(Ascending, data[..])
    ensures multiset(data[..]) == multiset(old(data[..]))
    ensures forall v :: Ties(data[..], v) == Ties(old(data[..]), v)
    ensures Sorted(Ascending, old(data[..])) ==> data[..] == old(data[..])
  {
    SortInPlace(Ascending, data);
    SortProperties(Ascending, old(data[..]));
    sorted := data;
  }

  /** `sortByYAxisDescending`: sorts the caller's array descending by `yAxis` with the
      reversed subtracting comparator and returns that same array. */
  method SortByYAxisDescending(data: array<Rec>) returns (sorted: array<Rec>)
    modifies data
    ensures sorted == data
    ensures Sorted(Descending, data[..])
    ensures multiset(data[..]) == multiset(old(data[..]))
    ensures forall v :: Ties(data[..], v) == Ties(old(data[..]), v)
    ensures Sorted(Descending, old(data[..])) ==> data[..] == old(data[..])
    ensures DistinctValues(old(data[..])) ==> data[..] == Reverse(StableSort(Ascending, old(data[..])))
  {
    SortInPlace(Descending, data);
    SortProperties(Descending, old(data[..]));
    if DistinctValues(old(data[..])) {
      DescendingReversesAscending(old(data[..]));
    }
    sorted := data;
  }

  /** Everything a stable sort promises, gathered for the two methods. */
  lemma SortProperties(order: Order, s: seq<Rec>)
    ensures Sorted(order, StableSort(order, s))
    ensures multiset(StableSort(order, s)) == multiset(s)
    ensures forall v :: Ties(StableSort(order, s), v) == Ties(s, v)
    ensures Sorted(order, s) ==> StableSort(order, s) == s
  {
    StableSortIsSorted(order, s);
    StableSortIsPermutation(order, s);
    forall v ensures Ties(StableSort(order, s), v) == Ties(s, v) {
      StableSortIsStable(order, s, v);
    }
    if Sorted(order, s) {
      SortingSortedIsIdentity(order, s);
    }
  }
}
