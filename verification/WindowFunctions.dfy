/** Window functions in one pass over sorted rows (src/sql.c; ISO/IEC 9075-2:2003 section 6.10). */
module WindowFunctions {
  import opened Values
  import opened SqlRows

  /** The definitions speak of sets of rows and never of the sorted permutation; the sort itself is the C
    library's and comes in as a parameter. Sums are exact.
   */

  datatype Fn = RowNumber | Rank | DenseRank | Lag | Lead | FirstValue | LastValue | Ntile
              | Count | Sum | Avg | MinOf | MaxOf

  datatype Key = Key(col: string, asc: bool)

  datatype Bound = UnboundedPreceding | Preceding(n: nat) | CurrentRow | Following(n: nat) | UnboundedFollowing

  datatype Frame = Frame(isRange: bool, start: Bound, end: Bound)

  datatype Item = Item(fn: Fn, argCol: string, partition: seq<string>, order: seq<Key>,
                       offset: nat, default: Option<Value>, buckets: nat, frame: Option<Frame>)
  {
    predicate IsAggregate() {
      fn.Count? || fn.Sum? || fn.Avg? || fn.MinOf? || fn.MaxOf?
    }

    /** What the parser lets through. */
    predicate Valid() {
      && (fn.Ntile? ==> buckets >= 1)
      && (frame.Some? ==>
            && IsAggregate()
            && !frame.value.start.UnboundedFollowing? && !frame.value.end.UnboundedPreceding?
            && (frame.value.isRange ==>
                  frame.value.start.UnboundedPreceding?
                  && (frame.value.end.CurrentRow? || frame.value.end.UnboundedFollowing?)))
    }
  }

  /** A computed value; `Copy` is a copy of a stored one. */
  datatype Cell = NullCell | Integer(n: int) | Number(x: real) | Copy(v: Value)

  function CellOf(v: Option<Value>): Cell {
    if v.None? then NullCell else Copy(v.value)
  }

  // ---------------------------------------------------------------- the order of rows

  /** Missing sorts before present. */
  function WinCmp(a: Option<Value>, b: Option<Value>): int {
    if a.None? && b.None? then 0
    else if a.None? then -1
    else if b.None? then 1
    else FieldCmp(a.value, b.value)
  }

  function KeyCmp(keys: seq<Key>, a: Row, b: Row): int {
    if keys == [] then 0
    else
      var c := WinCmp(Get(a, keys[0].col), Get(b, keys[0].col));
      var directed := if keys[0].asc then c else -c;
      if directed != 0 then directed else KeyCmp(keys[1..], a, b)
  }

  /** `sql__win_partition_equal`, `sql__win_order_equal`. */
  predicate KeyEqual(keys: seq<Key>, a: Row, b: Row) {
    forall k :: 0 <= k < |keys| ==> WinCmp(Get(a, keys[k].col), Get(b, keys[k].col)) == 0
  }

  function Ascending(cols: seq<string>): seq<Key> {
    seq(|cols|, i requires 0 <= i < |cols| => Key(cols[i], true))
  }

  /** On this column "not greater" is transitive. */
  ghost predicate Ordered(rows: seq<Row>, col: string) {
    forall p, q, r :: (0 <= p < |rows| && 0 <= q < |rows| && 0 <= r < |rows|
      && WinCmp(Get(rows[p], col), Get(rows[q], col)) <= 0 && WinCmp(Get(rows[q], col), Get(rows[r], col)) <= 0) ==>
        WinCmp(Get(rows[p], col), Get(rows[r], col)) <= 0
  }

  /** On these keys together it is. */
  ghost predicate WeakOrder(rows: seq<Row>, keys: seq<Key>) {
    forall p, q, r :: (0 <= p < |rows| && 0 <= q < |rows| && 0 <= r < |rows|
      && KeyCmp(keys, rows[p], rows[q]) <= 0 && KeyCmp(keys, rows[q], rows[r]) <= 0) ==>
        KeyCmp(keys, rows[p], rows[r]) <= 0
  }

  predicate UniformAs(rows: seq<Row>, col: string, numeric: bool) {
    forall r :: 0 <= r < |rows| && Get(rows[r], col).Some? ==> Alike(numeric, Get(rows[r], col).value)
  }

  /** Nothing in the column, where it is present, is less than anything else. */
  predicate AllTie(rows: seq<Row>, col: string) {
    forall p, q :: 0 <= p < |rows| && 0 <= q < |rows| && Get(rows[p], col).Some? && Get(rows[q], col).Some? ==>
      WinCmp(Get(rows[p], col), Get(rows[q], col)) == 0
  }

  /** Only numbers, only strings, or nothing that differs from anything. */
  predicate Uniform(rows: seq<Row>, col: string) {
    UniformAs(rows, col, true) || UniformAs(rows, col, false) || AllTie(rows, col)
  }

  lemma {:induction false} KeyEqualIsCmp(keys: seq<Key>, a: Row, b: Row)
    ensures KeyEqual(keys, a, b) <==> KeyCmp(keys, a, b) == 0
  {
    hide WinCmp, Get;
    if keys != [] {
      KeyEqualIsCmp(keys[1..], a, b);
      assert KeyEqual(keys, a, b) <==>
          WinCmp(Get(a, keys[0].col), Get(b, keys[0].col)) == 0 && KeyEqual(keys[1..], a, b) by {
        assert forall k :: 0 < k < |keys| ==> keys[k] == keys[1..][k - 1];
        assert forall k :: 0 <= k < |keys[1..]| ==> keys[1..][k] == keys[k + 1];
      }
    }
  }

  lemma WinCmpOpposed(a: Option<Value>, b: Option<Value>)
    ensures WinCmp(a, b) == -WinCmp(b, a)
    ensures -1 <= WinCmp(a, b) <= 1
  {
    if a.Some? && b.Some? {
      FieldCmpOpposed(a.value, b.value);
    }
  }

  lemma WinCmpTransitive(rows: seq<Row>, col: string, p: nat, q: nat, r: nat)
    requires p < |rows| && q < |rows| && r < |rows| && Uniform(rows, col)
    requires WinCmp(Get(rows[p], col), Get(rows[q], col)) <= 0 && WinCmp(Get(rows[q], col), Get(rows[r], col)) <= 0
    ensures WinCmp(Get(rows[p], col), Get(rows[r], col)) <= 0
  {
    hide FieldCmp, Get, Alike;
    var a, b, c := Get(rows[p], col), Get(rows[q], col), Get(rows[r], col);
    if !AllTie(rows, col) && a.Some? && b.Some? && c.Some? {
      FieldCmpTransitive(UniformAs(rows, col, true), a.value, b.value, c.value);
    }
  }

  /** A stored NULL counts as equal to everything present: a column with one in it is ordered only when all that
      is present in it ties. */
  lemma OrderedExactly(rows: seq<Row>, col: string)
    ensures Ordered(rows, col) <==> Uniform(rows, col)
  {
    hide FieldCmp, Get, Alike, Uniform;
    if Uniform(rows, col) {
      forall p, q, r | 0 <= p < |rows| && 0 <= q < |rows| && 0 <= r < |rows|
        && WinCmp(Get(rows[p], col), Get(rows[q], col)) <= 0 && WinCmp(Get(rows[q], col), Get(rows[r], col)) <= 0
        ensures WinCmp(Get(rows[p], col), Get(rows[r], col)) <= 0
      {
        WinCmpTransitive(rows, col, p, q, r);
      }
    } else {
      MixedColumn(rows, col);
    }
  }

  lemma MixedColumn(rows: seq<Row>, col: string)
    requires !Uniform(rows, col)
    ensures !Ordered(rows, col)
  {
    hide Get;
    var p, q :| 0 <= p < |rows| && 0 <= q < |rows| && Get(rows[p], col).Some? && Get(rows[q], col).Some?
      && WinCmp(Get(rows[p], col), Get(rows[q], col)) != 0;
    WinCmpOpposed(Get(rows[p], col), Get(rows[q], col));
    var numeric := IsNumber(Get(rows[p], col).value);
    var m :| 0 <= m < |rows| && Get(rows[m], col).Some? && !Alike(numeric, Get(rows[m], col).value);
    assert WinCmp(Get(rows[p], col), Get(rows[m], col)) == 0 == WinCmp(Get(rows[m], col), Get(rows[q], col));
    assert WinCmp(Get(rows[q], col), Get(rows[m], col)) == 0 == WinCmp(Get(rows[m], col), Get(rows[p], col));
  }

  lemma {:induction false} KeyCmpOpposed(keys: seq<Key>, a: Row, b: Row)
    ensures KeyCmp(keys, a, b) == -KeyCmp(keys, b, a)
  {
    hide WinCmp, Get;
    if keys != [] {
      WinCmpOpposed(Get(a, keys[0].col), Get(b, keys[0].col));
      KeyCmpOpposed(keys[1..], a, b);
    }
  }

  lemma KeyCmpTransitive(rows: seq<Row>, keys: seq<Key>, p: nat, q: nat, r: nat)
    requires p < |rows| && q < |rows| && r < |rows| && WeakOrder(rows, keys)
    requires KeyCmp(keys, rows[p], rows[q]) <= 0 && KeyCmp(keys, rows[q], rows[r]) <= 0
    ensures KeyCmp(keys, rows[p], rows[r]) <= 0
  {
  }

  /** Keys whose columns are all ordered are ordered together; for a single key nothing less will do. */
  lemma {:induction false} ColumnsOrder(rows: seq<Row>, keys: seq<Key>)
    ensures (forall k :: 0 <= k < |keys| ==> Uniform(rows, keys[k].col)) ==> WeakOrder(rows, keys)
    ensures |keys| == 1 ==> (WeakOrder(rows, keys) <==> Uniform(rows, keys[0].col))
  {
    hide WinCmp, Get, Uniform, KeyCmp, Ordered;
    if forall k :: 0 <= k < |keys| ==> Uniform(rows, keys[k].col) {
      forall p, q, r | 0 <= p < |rows| && 0 <= q < |rows| && 0 <= r < |rows|
        && KeyCmp(keys, rows[p], rows[q]) <= 0 && KeyCmp(keys, rows[q], rows[r]) <= 0
        ensures KeyCmp(keys, rows[p], rows[r]) <= 0
      {
        ColumnsTransitive(rows, keys, p, q, r);
      }
    }
    if |keys| == 1 && WeakOrder(rows, keys) {
      assert keys == [keys[0]];
      OneColumn(rows, keys[0]);
      OrderedExactly(rows, keys[0].col);
    }
  }

  lemma {:induction false} OneKeyCmp(key: Key, a: Row, b: Row)
    ensures KeyCmp([key], a, b) ==
      if key.asc then WinCmp(Get(a, key.col), Get(b, key.col)) else -WinCmp(Get(a, key.col), Get(b, key.col))
  {
    hide WinCmp, Get;
    assert [key][1..] == [];
  }

  lemma OneColumn(rows: seq<Row>, key: Key)
    requires WeakOrder(rows, [key])
    ensures Ordered(rows, key.col)
  {
    hide WinCmp, Get, KeyCmp;
    var col := key.col;
    forall p, q, r | 0 <= p < |rows| && 0 <= q < |rows| && 0 <= r < |rows|
      && WinCmp(Get(rows[p], col), Get(rows[q], col)) <= 0 && WinCmp(Get(rows[q], col), Get(rows[r], col)) <= 0
      ensures WinCmp(Get(rows[p], col), Get(rows[r], col)) <= 0
    {
      WinCmpOpposed(Get(rows[p], col), Get(rows[q], col));
      WinCmpOpposed(Get(rows[q], col), Get(rows[r], col));
      WinCmpOpposed(Get(rows[p], col), Get(rows[r], col));
      OneKeyCmp(key, rows[p], rows[q]);
      OneKeyCmp(key, rows[q], rows[r]);
      OneKeyCmp(key, rows[p], rows[r]);
      OneKeyCmp(key, rows[q], rows[p]);
      OneKeyCmp(key, rows[r], rows[q]);
      OneKeyCmp(key, rows[r], rows[p]);
    }
  }

  lemma {:induction false} ColumnsTransitive(rows: seq<Row>, keys: seq<Key>, p: nat, q: nat, r: nat)
    requires p < |rows| && q < |rows| && r < |rows|
    requires forall k :: 0 <= k < |keys| ==> Uniform(rows, keys[k].col)
    requires KeyCmp(keys, rows[p], rows[q]) <= 0 && KeyCmp(keys, rows[q], rows[r]) <= 0
    ensures KeyCmp(keys, rows[p], rows[r]) <= 0
  {
    hide WinCmp, Get, Uniform;
    if keys != [] {
      var col := keys[0].col;
      WinCmpOpposed(Get(rows[p], col), Get(rows[q], col));
      WinCmpOpposed(Get(rows[q], col), Get(rows[r], col));
      WinCmpOpposed(Get(rows[p], col), Get(rows[r], col));
      FirstColumn(rows, col, p, q, r, keys[0].asc);
      if WinCmp(Get(rows[p], col), Get(rows[r], col)) == 0 {
        assert forall k :: 0 <= k < |keys[1..]| ==> keys[1..][k] == keys[k + 1];
        ColumnsTransitive(rows, keys[1..], p, q, r);
      }
    }
  }

  /** Ties on the first column are ties throughout; otherwise the column decides. */
  lemma FirstColumn(rows: seq<Row>, col: string, p: nat, q: nat, r: nat, asc: bool)
    requires p < |rows| && q < |rows| && r < |rows| && Uniform(rows, col)
    requires var pq := WinCmp(Get(rows[p], col), Get(rows[q], col));
             var qr := WinCmp(Get(rows[q], col), Get(rows[r], col));
             if asc then pq <= 0 && qr <= 0 else pq >= 0 && qr >= 0
    ensures var pq := WinCmp(Get(rows[p], col), Get(rows[q], col));
            var qr := WinCmp(Get(rows[q], col), Get(rows[r], col));
            var pr := WinCmp(Get(rows[p], col), Get(rows[r], col));
            && (if asc then pr <= 0 else pr >= 0)
            && (pr == 0 <==> pq == 0 && qr == 0)
  {
    hide WinCmp, Get, Uniform;
    var a, b, c := Get(rows[p], col), Get(rows[q], col), Get(rows[r], col);
    WinCmpOpposed(a, b);
    WinCmpOpposed(b, c);
    WinCmpOpposed(a, c);
    if asc {
      WinCmpTransitive(rows, col, p, q, r);
      if WinCmp(a, c) == 0 {
        WinCmpTransitive(rows, col, r, p, q);
        WinCmpTransitive(rows, col, q, r, p);
      } else if WinCmp(a, b) == 0 && WinCmp(b, c) == 0 {
        WinCmpTransitive(rows, col, r, q, p);
      }
    } else {
      WinCmpTransitive(rows, col, r, q, p);
      if WinCmp(a, c) == 0 {
        WinCmpTransitive(rows, col, q, p, r);
        WinCmpTransitive(rows, col, p, r, q);
      } else if WinCmp(a, b) == 0 && WinCmp(b, c) == 0 {
        WinCmpTransitive(rows, col, p, q, r);
      }
    }
  }

  // ---------------------------------------------------------------- what the order is

  /** A missing field comes first, then the dictionary order of strings and the order of the numbers denoted. */
  predicate Sooner(a: Option<Value>, b: Option<Value>) {
    || (a.None? && b.Some?)
    || (a.Some? && b.Some? && a.value.Str? && b.value.Str? && Values.Earlier(a.value.s, b.value.s))
    || (a.Some? && b.Some? && IsNumber(a.value) && IsNumber(b.value) && ToReal(a.value) < ToReal(b.value))
  }

  lemma WinCmpExactly(a: Option<Value>, b: Option<Value>)
    ensures WinCmp(a, b) < 0 <==> Sooner(a, b)
    ensures WinCmp(a, b) > 0 <==> Sooner(b, a)
  {
    if a.Some? && b.Some? {
      FieldCmpExactly(a.value, b.value);
      FieldCmpExactly(b.value, a.value);
    }
  }

  /** Two rows that no earlier key tells apart: the key decides, in its direction. */
  lemma {:induction false} KeyDecides(keys: seq<Key>, a: Row, b: Row, k: nat)
    requires k <= |keys|
    requires forall j :: 0 <= j < k ==>
      !Sooner(Get(a, keys[j].col), Get(b, keys[j].col)) && !Sooner(Get(b, keys[j].col), Get(a, keys[j].col))
    ensures k == |keys| ==> KeyCmp(keys, a, b) == 0
    ensures k < |keys| && Sooner(Get(a, keys[k].col), Get(b, keys[k].col)) ==>
      if keys[k].asc then KeyCmp(keys, a, b) < 0 else KeyCmp(keys, a, b) > 0
  {
    hide WinCmp, Get, Sooner;
    if k < |keys| {
      WinCmpExactly(Get(a, keys[0].col), Get(b, keys[0].col));
    }
    if k > 0 {
      WinCmpExactly(Get(a, keys[0].col), Get(b, keys[0].col));
      assert forall j :: 0 <= j < k - 1 ==> keys[1..][j] == keys[j + 1];
      KeyDecides(keys[1..], a, b, k - 1);
    }
  }

  lemma {:induction false} KeysInTurn(first: seq<Key>, more: seq<Key>, a: Row, b: Row)
    ensures KeyCmp(first + more, a, b) == if KeyCmp(first, a, b) != 0 then KeyCmp(first, a, b) else KeyCmp(more, a, b)
  {
    hide WinCmp, Get;
    if first == [] {
      assert first + more == more;
    } else {
      assert (first + more)[1..] == first[1..] + more;
      KeysInTurn(first[1..], more, a, b);
    }
  }

  /** Of two rows in a sorted permutation the first key to tell them apart has the earlier one's value sooner, or
      later when it is descending; when no key does, they are in their original order. */
  lemma SortedMeans(rows: seq<Row>, item: Item, order: seq<nat>, i: nat, j: nat, k: nat)
    requires Sorted(rows, item, order) && i < j < |order| && k <= |item.partition| + |item.order|
    requires var keys := Ascending(item.partition) + item.order;
      forall n :: 0 <= n < k ==>
        && !Sooner(Get(rows[order[i]], keys[n].col), Get(rows[order[j]], keys[n].col))
        && !Sooner(Get(rows[order[j]], keys[n].col), Get(rows[order[i]], keys[n].col))
    ensures var keys := Ascending(item.partition) + item.order;
      && (k < |keys| ==>
            var a, b := Get(rows[order[i]], keys[k].col), Get(rows[order[j]], keys[k].col);
            if keys[k].asc then !Sooner(b, a) else !Sooner(a, b))
      && (k == |keys| ==> order[i] < order[j])
  {
    hide KeyCmp, Get, Sooner;
    var keys := Ascending(item.partition) + item.order;
    var a, b := rows[order[i]], rows[order[j]];
    assert Precedes(rows, item, order[i], order[j]);
    KeysInTurn(Ascending(item.partition), item.order, a, b);
    KeyDecides(keys, a, b, k);
    KeyDecides(keys, b, a, k);
    KeyCmpOpposed(keys, a, b);
  }

  // ---------------------------------------------------------------- partitions and peers

  function PartCmp(rows: seq<Row>, item: Item, q: nat, r: nat): int
    requires q < |rows| && r < |rows|
  {
    KeyCmp(Ascending(item.partition), rows[q], rows[r])
  }

  function OrdCmp(rows: seq<Row>, item: Item, q: nat, r: nat): int
    requires q < |rows| && r < |rows|
  {
    KeyCmp(item.order, rows[q], rows[r])
  }

  /** The comparison of `sql__win_cmp`: partition, then order, then the original position. */
  predicate Precedes(rows: seq<Row>, item: Item, q: nat, r: nat)
    requires q < |rows| && r < |rows|
  {
    var p, o := PartCmp(rows, item, q, r), OrdCmp(rows, item, q, r);
    p < 0 || (p == 0 && (o < 0 || (o == 0 && q < r)))
  }

  /** Columns the comparison orders; MIN and MAX need that of their argument too. */
  ghost predicate Sortable(rows: seq<Row>, item: Item) {
    && WeakOrder(rows, Ascending(item.partition))
    && WeakOrder(rows, item.order)
    && (item.fn.MinOf? || item.fn.MaxOf? ==> Uniform(rows, item.argCol))
  }

  function Ids(n: nat): seq<nat> {
    seq(n, i requires 0 <= i < n => i)
  }

  /** What sorting the row numbers gives. */
  ghost predicate Sorted(rows: seq<Row>, item: Item, order: seq<nat>) {
    && multiset(order) == multiset(Ids(|rows|))
    && InRange(rows, order)
    && forall i, j :: 0 <= i < j < |order| ==> Precedes(rows, item, order[i], order[j])
  }

  predicate InRange(rows: seq<Row>, order: seq<nat>) {
    |order| == |rows| && forall i :: 0 <= i < |order| ==> order[i] < |rows|
  }

  // When there is a permutation to sort into.

  ghost predicate Acyclic(rows: seq<Row>, item: Item) {
    forall p, q, r :: (0 <= p < |rows| && 0 <= q < |rows| && 0 <= r < |rows|
      && Precedes(rows, item, p, q) && Precedes(rows, item, q, r)) ==> Precedes(rows, item, p, r)
  }

  lemma OneFirst(rows: seq<Row>, item: Item, q: nat, r: nat)
    requires q < |rows| && r < |rows|
    ensures q != r ==> (Precedes(rows, item, q, r) <==> !Precedes(rows, item, r, q))
    ensures !Precedes(rows, item, q, q)
  {
    hide KeyCmp;
    KeyCmpOpposed(Ascending(item.partition), rows[q], rows[r]);
    KeyCmpOpposed(item.order, rows[q], rows[r]);
    KeyCmpOpposed(Ascending(item.partition), rows[q], rows[q]);
    KeyCmpOpposed(item.order, rows[q], rows[q]);
  }

  ghost predicate SortedUpTo(rows: seq<Row>, item: Item, order: seq<nat>, n: nat) {
    && n <= |rows| && |order| == n && multiset(order) == multiset(Ids(n))
    && (forall i :: 0 <= i < n ==> order[i] < n)
    && forall i, j :: 0 <= i < j < n ==> Precedes(rows, item, order[i], order[j])
  }

  lemma OneMoreId(less: seq<nat>, at: nat)
    requires at <= |less| && multiset(less) == multiset(Ids(|less|))
    ensures multiset(less[..at] + [|less|] + less[at..]) == multiset(Ids(|less| + 1))
  {
    var n := |less|;
    assert less == less[..at] + less[at..] && Ids(n + 1) == Ids(n) + [n];
    assert multiset(less[..at] + [n] + less[at..]) == multiset(less[..at]) + multiset{n} + multiset(less[at..]);
  }

  lemma Inserted(rows: seq<Row>, item: Item, less: seq<nat>, at: nat)
    requires at <= |less| < |rows| && SortedUpTo(rows, item, less, |less|)
    requires forall i :: 0 <= i < at ==> Precedes(rows, item, less[i], |less|)
    requires forall i :: at <= i < |less| ==> Precedes(rows, item, |less|, less[i])
    ensures SortedUpTo(rows, item, less[..at] + [|less|] + less[at..], |less| + 1)
  {
    hide Precedes, Ids;
    var n := |less|;
    var order := less[..at] + [n] + less[at..];
    OneMoreId(less, at);
    forall i, j | 0 <= i < j < n + 1
      ensures Precedes(rows, item, order[i], order[j])
    {
      assert order[i] == if i < at then less[i] else if i == at then n else less[i - 1];
      assert order[j] == if j < at then less[j] else if j == at then n else less[j - 1];
    }
  }

  lemma InsertionPoint(rows: seq<Row>, item: Item, less: seq<nat>) returns (at: nat)
    requires |less| < |rows| && SortedUpTo(rows, item, less, |less|) && Acyclic(rows, item)
    ensures at <= |less|
    ensures forall i :: 0 <= i < at ==> Precedes(rows, item, less[i], |less|)
    ensures forall i :: at <= i < |less| ==> Precedes(rows, item, |less|, less[i])
  {
    hide Precedes;
    var n := |less|;
    at := 0;
    while at < n && Precedes(rows, item, less[at], n)
      invariant at <= n && forall i :: 0 <= i < at ==> Precedes(rows, item, less[i], n)
    {
      at := at + 1;
    }
    forall i | at <= i < n
      ensures Precedes(rows, item, n, less[i])
    {
      OneFirst(rows, item, less[at], n);
    }
  }

  /** Insertion: without cycles there is always a place for one more row. */
  lemma {:induction false} SortFirst(rows: seq<Row>, item: Item, n: nat) returns (order: seq<nat>)
    requires n <= |rows| && Acyclic(rows, item)
    ensures SortedUpTo(rows, item, order, n)
  {
    hide Precedes, Acyclic;
    if n == 0 {
      return [];
    }
    var less := SortFirst(rows, item, n - 1);
    var at := InsertionPoint(rows, item, less);
    Inserted(rows, item, less, at);
    order := less[..at] + [|less|] + less[at..];
  }

  /** Sorting is possible exactly when the comparison runs into no cycle. */
  lemma SortsExactly(rows: seq<Row>, item: Item)
    ensures (exists order :: Sorted(rows, item, order)) <==> Acyclic(rows, item)
  {
    hide Precedes;
    if Acyclic(rows, item) {
      var order := SortFirst(rows, item, |rows|);
      assert Sorted(rows, item, order);
    }
    if order: seq<nat> :| Sorted(rows, item, order) {
      forall p, q, r | 0 <= p < |rows| && 0 <= q < |rows| && 0 <= r < |rows|
        && Precedes(rows, item, p, q) && Precedes(rows, item, q, r)
        ensures Precedes(rows, item, p, r)
      {
        var i := PositionOf(rows, order, p);
        var j := PositionOf(rows, order, q);
        var k := PositionOf(rows, order, r);
        OneFirst(rows, item, p, q);
        OneFirst(rows, item, q, r);
        assert i < j && j < k;
      }
    }
  }

  /** Keys the comparison orders can always be sorted. */
  lemma SortableSorts(rows: seq<Row>, item: Item)
    requires Sortable(rows, item)
    ensures Acyclic(rows, item)
  {
    hide KeyCmp, WeakOrder;
    var part, keys := Ascending(item.partition), item.order;
    forall p, q, r | 0 <= p < |rows| && 0 <= q < |rows| && 0 <= r < |rows|
      && Precedes(rows, item, p, q) && Precedes(rows, item, q, r)
      ensures Precedes(rows, item, p, r)
    {
      Chain(rows, part, p, q, r);
      if PartCmp(rows, item, p, q) == 0 && PartCmp(rows, item, q, r) == 0 {
        Chain(rows, keys, p, q, r);
      }
    }
  }

  lemma Chain(rows: seq<Row>, keys: seq<Key>, p: nat, q: nat, r: nat)
    requires p < |rows| && q < |rows| && r < |rows| && WeakOrder(rows, keys)
    requires KeyCmp(keys, rows[p], rows[q]) <= 0 && KeyCmp(keys, rows[q], rows[r]) <= 0
    ensures KeyCmp(keys, rows[p], rows[r]) <= 0
    ensures KeyCmp(keys, rows[p], rows[r]) == 0 <==>
      KeyCmp(keys, rows[p], rows[q]) == 0 && KeyCmp(keys, rows[q], rows[r]) == 0
  {
    hide KeyCmp, WeakOrder;
    KeyCmpOpposed(keys, rows[p], rows[q]);
    KeyCmpOpposed(keys, rows[q], rows[r]);
    KeyCmpOpposed(keys, rows[p], rows[r]);
    KeyCmpTransitive(rows, keys, p, q, r);
    if KeyCmp(keys, rows[p], rows[r]) == 0 {
      KeyCmpTransitive(rows, keys, r, p, q);
      KeyCmpTransitive(rows, keys, q, r, p);
    } else if KeyCmp(keys, rows[p], rows[q]) == 0 && KeyCmp(keys, rows[q], rows[r]) == 0 {
      KeyCmpTransitive(rows, keys, r, q, p);
    }
  }

  /** No row that ties with an earlier and with a later one stands between a greater and a lesser row. */
  ghost predicate NoTieBetween(rows: seq<Row>, item: Item) {
    forall p, m, q :: (0 <= p < m < q < |rows|
      && OrdCmp(rows, item, p, m) == 0 && OrdCmp(rows, item, m, q) == 0) ==> OrdCmp(rows, item, p, q) <= 0
  }

  /** A single order column sorts, stored NULLs and all, exactly when no NULL stands between two rows the wrong
      way round. */
  lemma NullsStillSort(rows: seq<Row>, item: Item)
    requires item.partition == [] && |item.order| == 1
    ensures (exists order :: Sorted(rows, item, order)) <==> NoTieBetween(rows, item)
  {
    hide KeyCmp;
    SortsExactly(rows, item);
    assert forall p, q :: 0 <= p < |rows| && 0 <= q < |rows| ==> PartCmp(rows, item, p, q) == 0 by {
      forall p, q | 0 <= p < |rows| && 0 <= q < |rows|
        ensures PartCmp(rows, item, p, q) == 0
      {
        NoPartition(rows, item, p, q);
      }
    }
    if NoTieBetween(rows, item) {
      forall p, q, r | 0 <= p < |rows| && 0 <= q < |rows| && 0 <= r < |rows|
        && Precedes(rows, item, p, q) && Precedes(rows, item, q, r)
        ensures Precedes(rows, item, p, r)
      {
        OneFirst(rows, item, p, r);
        OneFirst(rows, item, p, q);
        if !Precedes(rows, item, p, r) {
          NoCycle(rows, item, p, q, r);
        }
      }
    } else {
      var p, m, q :| 0 <= p < m < q < |rows|
        && OrdCmp(rows, item, p, m) == 0 && OrdCmp(rows, item, m, q) == 0 && OrdCmp(rows, item, p, q) > 0;
      assert Precedes(rows, item, p, m) && Precedes(rows, item, m, q) && !Precedes(rows, item, p, q);
    }
  }

  function OneColumnRows(values: seq<Value>): seq<Row> {
    seq(|values|, i requires 0 <= i < |values| => [Field("c", values[i])])
  }

  const RANK_BY_C := Item(Rank, "*", [], [Key("c", true)], 0, None, 0, None)

  lemma OrdOfRows(values: seq<Value>, p: nat, q: nat)
    requires p < |values| && q < |values|
    ensures OrdCmp(OneColumnRows(values), RANK_BY_C, p, q) == FieldCmp(values[p], values[q])
    ensures PartCmp(OneColumnRows(values), RANK_BY_C, p, q) == 0
  {
    hide FieldCmp;
    var rows := OneColumnRows(values);
    NoPartition(rows, RANK_BY_C, p, q);
    OneKeyCmp(RANK_BY_C.order[0], rows[p], rows[q]);
  }

  /** 2, NULL, 1: each row comes before the next, and the last before the first. Nothing sorts them. */
  lemma NullsBreakTheOrder()
    ensures forall order :: !Sorted(OneColumnRows([Int(2), Null, Int(1)]), RANK_BY_C, order)
  {
    var values := [Int(2), Null, Int(1)];
    var rows := OneColumnRows(values);
    SmallInts();
    OrdOfRows(values, 0, 1);
    OrdOfRows(values, 1, 2);
    OrdOfRows(values, 0, 2);
    hide OrdCmp, PartCmp;
    NullsStillSort(rows, RANK_BY_C);
    assert !NoTieBetween(rows, RANK_BY_C);
  }

  lemma SmallInts()
    ensures FieldCmp(Int(2), Int(1)) == 1 && FieldCmp(Int(1), Int(2)) == -1
    ensures FieldCmp(Int(1), Null) == FieldCmp(Int(2), Null) == FieldCmp(Null, Int(1)) == FieldCmp(Null, Int(2)) == 0
  {
    assert DoubleOf(1) == 1 && DoubleOf(2) == 2;
  }

  lemma NoPartition(rows: seq<Row>, item: Item, p: nat, q: nat)
    requires p < |rows| && q < |rows| && item.partition == []
    ensures PartCmp(rows, item, p, q) == 0
  {
  }

  lemma NoCycle(rows: seq<Row>, item: Item, p: nat, q: nat, r: nat)
    requires p < |rows| && q < |rows| && r < |rows| && item.partition == [] && |item.order| == 1
    requires NoTieBetween(rows, item)
    requires Precedes(rows, item, p, q) && Precedes(rows, item, q, r)
    ensures !Precedes(rows, item, r, p)
  {
    hide KeyCmp;
    NoPartition(rows, item, p, q);
    NoPartition(rows, item, q, r);
    NoPartition(rows, item, r, p);
    KeyCmpOpposed(item.order, rows[p], rows[q]);
    KeyCmpOpposed(item.order, rows[q], rows[r]);
    KeyCmpOpposed(item.order, rows[r], rows[p]);
    if OrdCmp(rows, item, r, p) <= 0 && OrdCmp(rows, item, p, q) < 0 {
      OneStrict(rows, item, p, q, r);
    } else if OrdCmp(rows, item, r, p) <= 0 && OrdCmp(rows, item, q, r) < 0 {
      OneStrict(rows, item, q, r, p);
    }
  }

  /** In a cycle on one column at most one step is strict. */
  lemma OneStrict(rows: seq<Row>, item: Item, p: nat, q: nat, r: nat)
    requires p < |rows| && q < |rows| && r < |rows| && |item.order| == 1
    requires OrdCmp(rows, item, p, q) < 0 && OrdCmp(rows, item, q, r) <= 0 && OrdCmp(rows, item, r, p) <= 0
    ensures OrdCmp(rows, item, q, r) == 0 && OrdCmp(rows, item, r, p) == 0
  {
    hide KeyCmp, Get;
    var key := item.order[0];
    assert item.order == [key];
    OneKeyCmp(key, rows[p], rows[q]);
    OneKeyCmp(key, rows[q], rows[r]);
    OneKeyCmp(key, rows[r], rows[p]);
    var a, b, c := Get(rows[p], key.col), Get(rows[q], key.col), Get(rows[r], key.col);
    WinCmpOpposed(a, b);
    WinCmpOpposed(b, c);
    WinCmpOpposed(a, c);
    if key.asc {
      StrictCell(a, b, c);
    } else {
      StrictCell(b, a, c);
    }
  }

  lemma StrictCell(a: Option<Value>, b: Option<Value>, c: Option<Value>)
    requires WinCmp(a, b) < 0 && WinCmp(b, c) <= 0 && WinCmp(c, a) <= 0
    ensures WinCmp(b, c) == 0 && WinCmp(c, a) == 0
  {
    if a.Some? && b.Some? && c.Some? {
      var numeric := IsNumber(a.value);
      FieldCmpOpposed(a.value, b.value);
      FieldCmpOpposed(b.value, c.value);
      FieldCmpOpposed(a.value, c.value);
      if Alike(numeric, c.value) {
        FieldCmpTransitive(numeric, b.value, c.value, a.value);
      }
    }
  }

  predicate SamePart(rows: seq<Row>, item: Item, q: nat, r: nat)
    requires q < |rows| && r < |rows|
  {
    PartCmp(rows, item, q, r) == 0
  }

  /** Positions `lo` to `hi` of the permutation are one whole partition. */
  ghost predicate Block(rows: seq<Row>, item: Item, order: seq<nat>, lo: nat, hi: nat)
    requires InRange(rows, order)
  {
    && lo < hi <= |order|
    && (forall j :: lo <= j < hi ==> SamePart(rows, item, order[j], order[lo]))
    && (lo > 0 ==> !SamePart(rows, item, order[lo], order[lo - 1]))
    && (hi < |order| ==> !SamePart(rows, item, order[hi], order[lo]))
  }

  lemma SortedParts(rows: seq<Row>, item: Item, order: seq<nat>, i: nat, j: nat)
    requires Sorted(rows, item, order) && i <= j < |order|
    ensures PartCmp(rows, item, order[i], order[j]) <= 0
  {
    hide KeyCmp;
    KeyCmpOpposed(Ascending(item.partition), rows[order[i]], rows[order[j]]);
    assert i < j ==> Precedes(rows, item, order[i], order[j]);
  }

  /** Two positions are in one partition exactly when the block of one holds the other. */
  lemma BlockExact(rows: seq<Row>, item: Item, order: seq<nat>, lo: nat, hi: nat, i: nat, j: nat)
    requires Sortable(rows, item) && Sorted(rows, item, order) && Block(rows, item, order, lo, hi)
    requires lo <= i < hi && j < |order|
    ensures SamePart(rows, item, order[j], order[i]) <==> lo <= j < hi
  {
    hide KeyCmp, WeakOrder, Precedes;
    var keys := Ascending(item.partition);
    KeyCmpOpposed(keys, rows[order[i]], rows[order[lo]]);
    KeyCmpOpposed(keys, rows[order[j]], rows[order[i]]);
    if lo <= j < hi {
      KeyCmpOpposed(keys, rows[order[j]], rows[order[lo]]);
      KeyCmpTransitive(rows, keys, order[j], order[lo], order[i]);
      KeyCmpTransitive(rows, keys, order[i], order[lo], order[j]);
    } else if SamePart(rows, item, order[j], order[i]) {
      KeyCmpTransitive(rows, keys, order[lo], order[i], order[j]);
      KeyCmpTransitive(rows, keys, order[j], order[i], order[lo]);
      if j < lo {
        SortedParts(rows, item, order, j, lo - 1);
        SortedParts(rows, item, order, lo - 1, lo);
        KeyCmpTransitive(rows, keys, order[lo], order[j], order[lo - 1]);
        KeyCmpOpposed(keys, rows[order[lo]], rows[order[lo - 1]]);
      } else {
        SortedParts(rows, item, order, lo, hi);
        SortedParts(rows, item, order, hi, j);
        KeyCmpTransitive(rows, keys, order[hi], order[j], order[lo]);
        KeyCmpOpposed(keys, rows[order[hi]], rows[order[lo]]);
      }
    }
  }

  predicate Tied(rows: seq<Row>, item: Item, q: nat, r: nat)
    requires q < |rows| && r < |rows|
  {
    OrdCmp(rows, item, q, r) == 0
  }

  lemma TiedSelf(rows: seq<Row>, item: Item, q: nat)
    requires q < |rows|
    ensures Tied(rows, item, q, q)
  {
    KeyCmpOpposed(item.order, rows[q], rows[q]);
  }

  /** Within a partition the permutation is ascending by order key. */
  lemma SortedOrder(rows: seq<Row>, item: Item, order: seq<nat>, lo: nat, hi: nat, i: nat, j: nat)
    requires Sortable(rows, item) && Sorted(rows, item, order) && Block(rows, item, order, lo, hi)
    requires lo <= i <= j < hi
    ensures OrdCmp(rows, item, order[i], order[j]) <= 0 <= OrdCmp(rows, item, order[j], order[i])
    ensures OrdCmp(rows, item, order[i], order[j]) == -OrdCmp(rows, item, order[j], order[i])
    ensures i < j && Tied(rows, item, order[j], order[i]) ==> order[i] < order[j]
  {
    hide KeyCmp, WeakOrder;
    KeyCmpOpposed(item.order, rows[order[i]], rows[order[j]]);
    if i < j {
      BlockExact(rows, item, order, lo, hi, j, i);
      assert Precedes(rows, item, order[i], order[j]);
    }
  }

  /** Positions `lo` to `hi` share their order key within the block `from` .. `to`, and no others do. */
  ghost predicate PeerGroup(rows: seq<Row>, item: Item, order: seq<nat>, from: nat, to: nat, lo: nat, hi: nat)
    requires InRange(rows, order) && to <= |order|
  {
    && from <= lo < hi <= to
    && (forall j :: lo <= j < hi ==> Tied(rows, item, order[j], order[lo]))
    && (lo > from ==> !Tied(rows, item, order[lo], order[lo - 1]))
  }

  /** Before the group the key is strictly less; after it, when nothing more ties, strictly greater. */
  lemma PeersExact(rows: seq<Row>, item: Item, order: seq<nat>, from: nat, to: nat, lo: nat, hi: nat,
                   i: nat, j: nat)
    requires Sortable(rows, item) && Sorted(rows, item, order) && Block(rows, item, order, from, to)
    requires PeerGroup(rows, item, order, from, to, lo, hi)
    requires lo <= i < hi && from <= j < to
    ensures j < lo <==> OrdCmp(rows, item, order[j], order[i]) < 0
    ensures lo <= j < hi ==> OrdCmp(rows, item, order[j], order[i]) == 0
    ensures hi <= j && !Tied(rows, item, order[hi], order[lo]) ==> OrdCmp(rows, item, order[j], order[i]) > 0
  {
    hide KeyCmp, WeakOrder, Precedes;
    var keys := item.order;
    SortedOrder(rows, item, order, from, to, lo, i);
    if lo <= j < hi {
      SortedOrder(rows, item, order, from, to, lo, j);
      KeyCmpTransitive(rows, keys, order[j], order[lo], order[i]);
      KeyCmpTransitive(rows, keys, order[i], order[lo], order[j]);
      KeyCmpOpposed(keys, rows[order[i]], rows[order[j]]);
    } else if j < lo {
      SortedOrder(rows, item, order, from, to, j, lo - 1);
      SortedOrder(rows, item, order, from, to, lo - 1, lo);
      SortedOrder(rows, item, order, from, to, j, i);
      if Tied(rows, item, order[j], order[i]) {
        KeyCmpTransitive(rows, keys, order[lo], order[i], order[j]);
        KeyCmpTransitive(rows, keys, order[lo], order[j], order[lo - 1]);
      }
    } else {
      SortedOrder(rows, item, order, from, to, hi, j);
      SortedOrder(rows, item, order, from, to, lo, hi);
      SortedOrder(rows, item, order, from, to, i, j);
      if Tied(rows, item, order[j], order[i]) {
        KeyCmpTransitive(rows, keys, order[hi], order[j], order[i]);
        KeyCmpTransitive(rows, keys, order[hi], order[i], order[lo]);
      }
    }
  }

  // ---------------------------------------------------------------- sets of rows

  function Filter(ids: seq<nat>, p: nat -> bool): (out: seq<nat>)
    ensures |out| <= |ids|
  {
    if ids == [] then []
    else Filter(ids[..|ids| - 1], p) + (if p(ids[|ids| - 1]) then [ids[|ids| - 1]] else [])
  }

  /** The rows `p` holds of, in their original order. */
  function Chosen(n: nat, p: nat -> bool): seq<nat> {
    Filter(Ids(n), p)
  }

  lemma {:induction false} FilterCount(ids: seq<nat>, p: nat -> bool, x: nat)
    ensures multiset(Filter(ids, p))[x] == if p(x) then multiset(ids)[x] else 0
  {
    if ids != [] {
      var front, last := ids[..|ids| - 1], ids[|ids| - 1];
      FilterCount(front, p, x);
      assert ids == front + [last];
    }
  }

  lemma FilterPermuted(a: seq<nat>, b: seq<nat>, p: nat -> bool)
    requires multiset(a) == multiset(b)
    ensures multiset(Filter(a, p)) == multiset(Filter(b, p))
    ensures |Filter(a, p)| == |Filter(b, p)|
  {
    forall x: nat
      ensures multiset(Filter(a, p))[x] == multiset(Filter(b, p))[x]
    {
      FilterCount(a, p, x);
      FilterCount(b, p, x);
    }
    assert multiset(Filter(a, p)) == multiset(Filter(b, p));
    assert |multiset(Filter(a, p))| == |Filter(a, p)| && |multiset(Filter(b, p))| == |Filter(b, p)|;
  }

  lemma {:induction false} FilterSame(ids: seq<nat>, p: nat -> bool, q: nat -> bool)
    requires forall j :: 0 <= j < |ids| ==> p(ids[j]) == q(ids[j])
    ensures Filter(ids, p) == Filter(ids, q)
  {
    if ids != [] {
      FilterSame(ids[..|ids| - 1], p, q);
    }
  }

  lemma {:induction false} FilterAppend(a: seq<nat>, b: seq<nat>, p: nat -> bool)
    ensures Filter(a + b, p) == Filter(a, p) + Filter(b, p)
  {
    if b == [] {
      assert a + b == a;
    } else {
      assert (a + b)[..|a + b| - 1] == a + b[..|b| - 1];
      FilterAppend(a, b[..|b| - 1], p);
    }
  }

  lemma {:induction false} FilterNone(ids: seq<nat>, p: nat -> bool)
    requires forall j :: 0 <= j < |ids| ==> !p(ids[j])
    ensures Filter(ids, p) == []
  {
    if ids != [] {
      FilterNone(ids[..|ids| - 1], p);
    }
  }

  lemma {:induction false} FilterAll(ids: seq<nat>, p: nat -> bool)
    requires forall j :: 0 <= j < |ids| ==> p(ids[j])
    ensures Filter(ids, p) == ids
  {
    if ids != [] {
      FilterAll(ids[..|ids| - 1], p);
    }
  }

  lemma {:induction false} FilterFrom(ids: seq<nat>, p: nat -> bool, lo: nat)
    requires lo <= |ids| && forall j :: 0 <= j < lo ==> !p(ids[j])
    ensures Filter(ids, p) == Filter(ids[lo..], p)
  {
    hide Filter;
    assert ids == ids[..lo] + ids[lo..];
    FilterAppend(ids[..lo], ids[lo..], p);
    FilterNone(ids[..lo], p);
  }

  lemma {:induction false} FilterTo(ids: seq<nat>, p: nat -> bool, hi: nat)
    requires hi <= |ids| && forall j :: hi <= j < |ids| ==> !p(ids[j])
    ensures Filter(ids, p) == Filter(ids[..hi], p)
  {
    hide Filter;
    assert ids == ids[..hi] + ids[hi..];
    FilterAppend(ids[..hi], ids[hi..], p);
    FilterNone(ids[hi..], p);
  }

  lemma {:induction false} FilterMiddle(ids: seq<nat>, p: nat -> bool, lo: nat, hi: nat)
    requires lo <= hi <= |ids|
    requires forall j :: 0 <= j < |ids| && !(lo <= j < hi) ==> !p(ids[j])
    ensures Filter(ids, p) == Filter(ids[lo..hi], p)
  {
    hide Filter;
    FilterTo(ids, p, hi);
    FilterFrom(ids[..hi], p, lo);
    assert ids[..hi][lo..] == ids[lo..hi];
  }

  lemma {:induction false} FilterSlice(ids: seq<nat>, p: nat -> bool, lo: nat, hi: nat)
    requires lo <= hi <= |ids|
    requires forall j :: 0 <= j < |ids| ==> (p(ids[j]) <==> lo <= j < hi)
    ensures Filter(ids, p) == ids[lo..hi]
  {
    hide Filter;
    FilterMiddle(ids, p, lo, hi);
    FilterAll(ids[lo..hi], p);
  }

  /** Rows that are one stretch of the permutation. */
  lemma ChosenSlice(rows: seq<Row>, order: seq<nat>, p: nat -> bool, lo: nat, hi: nat)
    requires multiset(order) == multiset(Ids(|rows|)) && lo <= hi <= |order|
    requires forall j :: 0 <= j < |order| ==> (p(order[j]) <==> lo <= j < hi)
    ensures multiset(Chosen(|rows|, p)) == multiset(order[lo..hi])
    ensures |Chosen(|rows|, p)| == hi - lo
  {
    FilterSlice(order, p, lo, hi);
    FilterPermuted(order, Ids(|rows|), p);
  }

  lemma PositionOf(rows: seq<Row>, order: seq<nat>, r: nat) returns (i: nat)
    requires multiset(order) == multiset(Ids(|rows|)) && r < |rows|
    ensures i < |order| && order[i] == r
  {
    assert Ids(|rows|)[r] == r;
    assert r in multiset(order);
    i :| 0 <= i < |order| && order[i] == r;
  }

  // ---------------------------------------------------------------- what the functions mean

  function InPart(rows: seq<Row>, item: Item, r: nat): nat -> bool
    requires r < |rows|
  {
    (q: nat) => q < |rows| && SamePart(rows, item, q, r)
  }

  function Earlier(rows: seq<Row>, item: Item, r: nat): nat -> bool
    requires r < |rows|
  {
    (q: nat) => q < |rows| && SamePart(rows, item, q, r) && Precedes(rows, item, q, r)
  }

  function Below(rows: seq<Row>, item: Item, r: nat): nat -> bool
    requires r < |rows|
  {
    (q: nat) => q < |rows| && SamePart(rows, item, q, r) && OrdCmp(rows, item, q, r) < 0
  }

  /** The first row of its partition with its order key: one for every distinct key. */
  predicate Leader(rows: seq<Row>, item: Item, q: nat)
    requires q < |rows|
  {
    forall o :: 0 <= o < q ==> !(SamePart(rows, item, o, q) && Tied(rows, item, q, o))
  }

  function LeaderUpTo(rows: seq<Row>, item: Item, r: nat): nat -> bool
    requires r < |rows|
  {
    (q: nat) => q < |rows| && SamePart(rows, item, q, r) && OrdCmp(rows, item, q, r) <= 0 && Leader(rows, item, q)
  }

  function PartSize(rows: seq<Row>, item: Item, r: nat): nat
    requires r < |rows|
  {
    |Chosen(|rows|, InPart(rows, item, r))|
  }

  function RowNumberOf(rows: seq<Row>, item: Item, r: nat): nat
    requires r < |rows|
  {
    1 + |Chosen(|rows|, Earlier(rows, item, r))|
  }

  /** One more than the rows strictly before in the partition. */
  function RankOf(rows: seq<Row>, item: Item, r: nat): nat
    requires r < |rows|
  {
    1 + |Chosen(|rows|, Below(rows, item, r))|
  }

  /** The distinct order keys of the partition up to the row's own. */
  function DenseRankOf(rows: seq<Row>, item: Item, r: nat): nat
    requires r < |rows|
  {
    |Chosen(|rows|, LeaderUpTo(rows, item, r))|
  }

  /** Where bucket `k` of `n` starts among `size` rows: the larger buckets come first. */
  function TileStart(size: nat, n: nat, k: nat): nat
    requires 1 <= n && 1 <= k
  {
    (k - 1) * (size / n) + (if k - 1 < size % n then k - 1 else size % n)
  }

  lemma TilesCover(size: nat, n: nat, k: nat)
    requires 1 <= n && 1 <= k <= n
    ensures TileStart(size, n, 1) == 0 && TileStart(size, n, n + 1) == size
    ensures TileStart(size, n, k + 1) - TileStart(size, n, k) == size / n + (if k <= size % n then 1 else 0)
  {
    var base := size / n;
    assert k * base == (k - 1) * base + base;
    assert n * base + size % n == size;
  }

  predicate NeighbourIs(rows: seq<Row>, item: Item, r: nat, number: int, c: Cell)
    requires r < |rows|
  {
    || (exists q :: 0 <= q < |rows| && SamePart(rows, item, q, r) && RowNumberOf(rows, item, q) == number
                    && c == CellOf(Get(rows[q], item.argCol)))
    || ((forall q :: 0 <= q < |rows| && SamePart(rows, item, q, r) ==> RowNumberOf(rows, item, q) != number)
        && c == CellOf(item.default))
  }

  predicate FromStart(rows: seq<Row>, item: Item, f: Frame, r: nat, q: nat)
    requires r < |rows| && q < |rows|
  {
    var n, m := RowNumberOf(rows, item, q), RowNumberOf(rows, item, r);
    match f.start
    case UnboundedPreceding => true
    case Preceding(d) => n >= m - d
    case CurrentRow => n >= m
    case Following(d) => n >= m + d
    case UnboundedFollowing => false
  }

  predicate ToEnd(rows: seq<Row>, item: Item, f: Frame, r: nat, q: nat)
    requires r < |rows| && q < |rows|
  {
    var n, m := RowNumberOf(rows, item, q), RowNumberOf(rows, item, r);
    match f.end
    case UnboundedPreceding => false
    case Preceding(d) => n <= m - d
    case CurrentRow => if f.isRange then OrdCmp(rows, item, q, r) <= 0 else n <= m
    case Following(d) => n <= m + d
    case UnboundedFollowing => true
  }

  /** The rows a row's aggregate covers: its frame, or without one its partition. */
  function InFrame(rows: seq<Row>, item: Item, r: nat): nat -> bool
    requires r < |rows|
  {
    (q: nat) => q < |rows| && SamePart(rows, item, q, r)
         && (item.frame.None?
             || (FromStart(rows, item, item.frame.value, r, q) && ToEnd(rows, item, item.frame.value, r, q)))
  }

  // ---------------------------------------------------------------- aggregates

  function Argument(rows: seq<Row>, item: Item, q: nat): Option<Value> {
    if q >= |rows| || item.argCol == "*" then None else Get(rows[q], item.argCol)
  }

  function Counted(rows: seq<Row>, item: Item): nat -> bool {
    (q: nat) => item.argCol == "*" || Argument(rows, item, q).Some?
  }

  function Numeric(rows: seq<Row>, item: Item): nat -> bool {
    (q: nat) => Argument(rows, item, q).Some? && IsNumber(Argument(rows, item, q).value)
  }

  function Total(rows: seq<Row>, item: Item, ids: seq<nat>): real {
    if ids == [] then 0.0
    else
      var last := ids[|ids| - 1];
      Total(rows, item, ids[..|ids| - 1])
      + (if Numeric(rows, item)(last) then ToReal(Argument(rows, item, last).value) else 0.0)
  }

  /** `c` is the least (`sign` 1) or greatest (`sign` -1) argument there is. */
  predicate Extreme(rows: seq<Row>, item: Item, ids: seq<nat>, sign: int, c: Cell) {
    || (c == NullCell && forall q :: q in ids ==> Argument(rows, item, q).None?)
    || (c.Copy?
        && (exists q :: q in ids && Argument(rows, item, q) == Some(c.v))
        && (forall q :: q in ids && Argument(rows, item, q).Some? ==>
              sign * FieldCmp(c.v, Argument(rows, item, q).value) <= 0))
  }

  /** MIN is an argument no other comes sooner than, MAX one that comes sooner than no other. */
  lemma ExtremeExactly(rows: seq<Row>, item: Item, ids: seq<nat>, v: Value)
    requires exists q :: q in ids && Argument(rows, item, q) == Some(v)
    ensures Extreme(rows, item, ids, 1, Copy(v)) <==>
      forall q :: q in ids && Argument(rows, item, q).Some? ==> !Sooner(Argument(rows, item, q), Some(v))
    ensures Extreme(rows, item, ids, -1, Copy(v)) <==>
      forall q :: q in ids && Argument(rows, item, q).Some? ==> !Sooner(Some(v), Argument(rows, item, q))
  {
    hide FieldCmp, Argument, Sooner;
    forall q | q in ids && Argument(rows, item, q).Some?
      ensures FieldCmp(v, Argument(rows, item, q).value) <= 0 <==> !Sooner(Argument(rows, item, q), Some(v))
      ensures FieldCmp(v, Argument(rows, item, q).value) >= 0 <==> !Sooner(Some(v), Argument(rows, item, q))
    {
      WinCmpExactly(Some(v), Argument(rows, item, q));
    }
  }

  predicate AggregateIs(rows: seq<Row>, item: Item, ids: seq<nat>, c: Cell) {
    match item.fn
    case Count => c == Integer(|Filter(ids, Counted(rows, item))|)
    case Sum => c == Number(Total(rows, item, ids))
    case Avg =>
      var n := |Filter(ids, Numeric(rows, item))|;
      c == Number(if n > 0 then Total(rows, item, ids) / n as real else 0.0)
    case MinOf => Extreme(rows, item, ids, 1, c)
    case MaxOf => Extreme(rows, item, ids, -1, c)
    case _ => true
  }

  /** What each function is to be for row `r`. */
  predicate Correct(rows: seq<Row>, item: Item, r: nat, c: Cell)
    requires r < |rows| && item.Valid()
  {
    match item.fn
    case RowNumber => c == Integer(RowNumberOf(rows, item, r))
    case Rank => c == Integer(RankOf(rows, item, r))
    case DenseRank => c == Integer(DenseRankOf(rows, item, r))
    case Lag => NeighbourIs(rows, item, r, RowNumberOf(rows, item, r) - item.offset, c)
    case Lead => NeighbourIs(rows, item, r, RowNumberOf(rows, item, r) + item.offset, c)
    case FirstValue => NeighbourIs(rows, item, r, 1, c)
    case LastValue => NeighbourIs(rows, item, r, PartSize(rows, item, r), c)
    case Ntile =>
      var size, n := PartSize(rows, item, r), item.buckets;
      c.Integer? && 1 <= c.n <= n
      && TileStart(size, n, c.n) < RowNumberOf(rows, item, r) <= TileStart(size, n, c.n + 1)
    case _ => AggregateIs(rows, item, Chosen(|rows|, InFrame(rows, item, r)), c)
  }

  // ---------------------------------------------------------------- positions

  lemma PrecedesOneWay(rows: seq<Row>, item: Item, q: nat, r: nat)
    requires q < |rows| && r < |rows| && Precedes(rows, item, q, r)
    ensures !Precedes(rows, item, r, q)
  {
    hide KeyCmp;
    KeyCmpOpposed(Ascending(item.partition), rows[q], rows[r]);
    KeyCmpOpposed(item.order, rows[q], rows[r]);
  }

  /** A row's number is its position within its block, and the block is its partition. */
  lemma RowNumberAt(rows: seq<Row>, item: Item, order: seq<nat>, lo: nat, hi: nat, i: nat)
    requires Sortable(rows, item) && Sorted(rows, item, order) && Block(rows, item, order, lo, hi)
    requires lo <= i < hi
    ensures RowNumberOf(rows, item, order[i]) == i - lo + 1
    ensures PartSize(rows, item, order[i]) == hi - lo
  {
    hide PartCmp, OrdCmp, SamePart, Precedes, WeakOrder, Filter;
    var r := order[i];
    forall j | 0 <= j < |order|
      ensures InPart(rows, item, r)(order[j]) <==> lo <= j < hi
      ensures Earlier(rows, item, r)(order[j]) <==> lo <= j < i
    {
      BlockExact(rows, item, order, lo, hi, i, j);
      if j < i {
        assert Precedes(rows, item, order[j], order[i]);
      } else if j == i {
        if Precedes(rows, item, order[j], order[i]) {
          PrecedesOneWay(rows, item, order[j], order[i]);
        }
      } else {
        assert Precedes(rows, item, order[i], order[j]);
        PrecedesOneWay(rows, item, order[i], order[j]);
      }
    }
    ChosenSlice(rows, order, InPart(rows, item, r), lo, hi);
    ChosenSlice(rows, order, Earlier(rows, item, r), lo, i);
  }

  lemma RankAt(rows: seq<Row>, item: Item, order: seq<nat>, from: nat, to: nat, lo: nat, hi: nat, i: nat)
    requires Sortable(rows, item) && Sorted(rows, item, order) && Block(rows, item, order, from, to)
    requires PeerGroup(rows, item, order, from, to, lo, hi) && lo <= i < hi
    ensures RankOf(rows, item, order[i]) == lo - from + 1
  {
    hide PartCmp, OrdCmp, SamePart, Precedes, WeakOrder, Filter;
    var r := order[i];
    forall j | 0 <= j < |order|
      ensures Below(rows, item, r)(order[j]) <==> from <= j < lo
    {
      BlockExact(rows, item, order, from, to, i, j);
      if from <= j < to {
        PeersExact(rows, item, order, from, to, lo, hi, i, j);
      }
    }
    ChosenSlice(rows, order, Below(rows, item, r), from, lo);
  }

  /** Leaders are the positions where the order key changes. */
  lemma LeaderAt(rows: seq<Row>, item: Item, order: seq<nat>, from: nat, to: nat, i: nat)
    requires Sortable(rows, item) && Sorted(rows, item, order) && Block(rows, item, order, from, to)
    requires from <= i < to
    ensures Leader(rows, item, order[i]) <==> i == from || !Tied(rows, item, order[i], order[i - 1])
  {
    hide PartCmp, OrdCmp, SamePart, Precedes, WeakOrder;
    if i > from && Tied(rows, item, order[i], order[i - 1]) {
      SortedOrder(rows, item, order, from, to, i - 1, i);
      BlockExact(rows, item, order, from, to, i, i - 1);
    } else {
      forall o | 0 <= o < order[i]
        ensures !(SamePart(rows, item, o, order[i]) && Tied(rows, item, order[i], o))
      {
        var j := PositionOf(rows, order, o);
        BlockExact(rows, item, order, from, to, i, j);
        if from <= j < to {
          if j < i {
            SortedOrder(rows, item, order, from, to, j, i);
            TiedSelf(rows, item, order[i]);
            PeersExact(rows, item, order, from, to, i, i + 1, i, j);
          } else {
            SortedOrder(rows, item, order, from, to, i, j);
          }
        }
      }
    }
  }

  function LeaderOnly(rows: seq<Row>, item: Item): nat -> bool {
    (q: nat) => q < |rows| && Leader(rows, item, q)
  }

  lemma LeadersUpTo(rows: seq<Row>, item: Item, order: seq<nat>, from: nat, to: nat, i: nat, j: nat)
    requires Sortable(rows, item) && Sorted(rows, item, order) && Block(rows, item, order, from, to)
    requires from <= i < to && j < |order|
    ensures LeaderUpTo(rows, item, order[i])(order[j])
       <==> from <= j <= i && LeaderOnly(rows, item)(order[j])
  {
    hide PartCmp, OrdCmp, SamePart, Precedes, WeakOrder, Leader, Tied;
    BlockExact(rows, item, order, from, to, i, j);
    if from <= j <= i {
      SortedOrder(rows, item, order, from, to, j, i);
    } else if i < j < to {
      LeaderAt(rows, item, order, from, to, j);
      if !Tied(rows, item, order[j], order[j - 1]) {
        LaterLeaderIsGreater(rows, item, order, from, to, i, j);
      }
    }
  }

  lemma DenseRankAt(rows: seq<Row>, item: Item, order: seq<nat>, from: nat, to: nat, i: nat)
    requires Sortable(rows, item) && Sorted(rows, item, order) && Block(rows, item, order, from, to)
    requires from <= i < to
    ensures DenseRankOf(rows, item, order[i]) == |Filter(order[from..i + 1], LeaderOnly(rows, item))|
  {
    hide SamePart, Precedes, WeakOrder, Filter, Leader, LeaderUpTo, LeaderOnly;
    var p, q := LeaderUpTo(rows, item, order[i]), LeaderOnly(rows, item);
    forall j | 0 <= j < |order|
      ensures p(order[j]) <==> from <= j <= i && q(order[j])
    {
      LeadersUpTo(rows, item, order, from, to, i, j);
    }
    FilterMiddle(order, p, from, i + 1);
    FilterSame(order[from..i + 1], p, q);
    FilterPermuted(order, Ids(|rows|), p);
  }

  lemma LaterLeaderIsGreater(rows: seq<Row>, item: Item, order: seq<nat>, from: nat, to: nat, i: nat, j: nat)
    requires Sortable(rows, item) && Sorted(rows, item, order) && Block(rows, item, order, from, to)
    requires from <= i < j < to && !Tied(rows, item, order[j], order[j - 1])
    ensures OrdCmp(rows, item, order[j], order[i]) > 0
  {
    hide PartCmp, OrdCmp, SamePart, Precedes, WeakOrder;
    TiedSelf(rows, item, order[j]);
    PeersExact(rows, item, order, from, to, j, j + 1, j, i);
    SortedOrder(rows, item, order, from, to, i, j);
  }

  lemma NeighbourAt(rows: seq<Row>, item: Item, order: seq<nat>, lo: nat, hi: nat, i: nat, number: int, c: Cell)
    requires Sortable(rows, item) && Sorted(rows, item, order) && Block(rows, item, order, lo, hi)
    requires lo <= i < hi
    requires c == if 1 <= number <= hi - lo then CellOf(Get(rows[order[lo + number - 1]], item.argCol))
                  else CellOf(item.default)
    ensures NeighbourIs(rows, item, order[i], number, c)
  {
    hide PartCmp, SamePart, Precedes, WeakOrder, RowNumberOf, Get;
    if 1 <= number <= hi - lo {
      var j := lo + number - 1;
      RowNumberAt(rows, item, order, lo, hi, j);
      BlockExact(rows, item, order, lo, hi, i, j);
    } else {
      forall q | 0 <= q < |rows| && SamePart(rows, item, q, order[i])
        ensures RowNumberOf(rows, item, q) != number
      {
        var j := PositionOf(rows, order, q);
        BlockExact(rows, item, order, lo, hi, i, j);
        RowNumberAt(rows, item, order, lo, hi, j);
      }
    }
  }

  /** Where the code's frame bounds end up after clipping, with the peers of `i` ending before `peersTo`. */
  lemma {:induction false} FrameAt(rows: seq<Row>, item: Item, order: seq<nat>, lo: nat, hi: nat, i: nat,
                peersFrom: nat, peersTo: nat, first: int, last: int)
    requires item.Valid() && item.frame.Some?
    requires Sortable(rows, item) && Sorted(rows, item, order) && Block(rows, item, order, lo, hi)
    requires lo <= i < hi
    requires item.frame.value.isRange && item.frame.value.end.CurrentRow? ==>
               PeerGroup(rows, item, order, lo, hi, peersFrom, peersTo) && peersFrom <= i < peersTo
               && (peersTo < hi ==> !Tied(rows, item, order[peersTo], order[peersFrom]))
    requires first == FirstOf(item.frame.value, lo, i) && last == LastOf(item.frame.value, hi, i, peersTo)
    ensures var ids := Chosen(|rows|, InFrame(rows, item, order[i]));
            if first <= last then multiset(ids) == multiset(order[first..last + 1]) else ids == []
  {
    hide PartCmp, OrdCmp, SamePart, Precedes, WeakOrder, RowNumberOf, Filter, Uniform;
    var p := InFrame(rows, item, order[i]);
    RowNumberAt(rows, item, order, lo, hi, i);
    forall j | 0 <= j < |order|
      ensures p(order[j]) <==> first <= j <= last
    {
      BlockExact(rows, item, order, lo, hi, i, j);
      if lo <= j < hi {
        RowNumberAt(rows, item, order, lo, hi, j);
        if item.frame.value.isRange && item.frame.value.end.CurrentRow? {
          PeersExact(rows, item, order, lo, hi, peersFrom, peersTo, i, j);
        }
      }
    }
    if first <= last {
      ChosenSlice(rows, order, p, first, last + 1);
    } else {
      ChosenSlice(rows, order, p, 0, 0);
    }
  }

  /** The clipped start and end of a frame, as positions. */
  function FirstOf(f: Frame, partStart: nat, si: nat): int {
    var lo := match f.start
              case Preceding(n) => si - n
              case CurrentRow => si
              case Following(n) => si + n
              case _ => partStart;
    if lo < partStart then partStart else lo
  }

  function LastOf(f: Frame, partEnd: nat, si: nat, peersTo: nat): int {
    var hi := match f.end
              case CurrentRow => if f.isRange then peersTo - 1 else si
              case Following(n) => si + n
              case Preceding(n) => si - n
              case _ => partEnd - 1;
    if hi > partEnd - 1 then partEnd - 1 else hi
  }

  // ---------------------------------------------------------------- accumulating

  datatype Acc = Acc(sum: real, count: nat, least: Option<Value>, greatest: Option<Value>)

  const NOTHING_YET := Acc(0.0, 0, None, None)

  function Accumulate(item: Item, acc: Acc, row: Row): Acc {
    var f := if item.argCol == "*" then None else Get(row, item.argCol);
    if item.fn.Count? then
      if item.argCol == "*" || f.Some? then acc.(count := acc.count + 1) else acc
    else if f.None? then acc
    else if (item.fn.Sum? || item.fn.Avg?) && IsNumber(f.value) then
      acc.(sum := acc.sum + ToReal(f.value), count := acc.count + 1)
    else if item.fn.MinOf? then
      if acc.least.None? || FieldCmp(f.value, acc.least.value) < 0 then acc.(least := f) else acc
    else if item.fn.MaxOf? then
      if acc.greatest.None? || FieldCmp(f.value, acc.greatest.value) > 0 then acc.(greatest := f) else acc
    else acc
  }

  function Finish(item: Item, acc: Acc): Cell {
    match item.fn
    case Count => Integer(acc.count)
    case Sum => Number(acc.sum)
    case Avg => Number(if acc.count > 0 then acc.sum / acc.count as real else 0.0)
    case MinOf => CellOf(acc.least)
    case MaxOf => CellOf(acc.greatest)
    case _ => NullCell
  }

  function Accumulated(rows: seq<Row>, item: Item, ids: seq<nat>): Acc
    requires forall i :: 0 <= i < |ids| ==> ids[i] < |rows|
  {
    if ids == [] then NOTHING_YET
    else Accumulate(item, Accumulated(rows, item, ids[..|ids| - 1]), rows[ids[|ids| - 1]])
  }

  /** One accumulator at a time says what it should. */
  ghost predicate Tallies(rows: seq<Row>, item: Item, ids: seq<nat>, acc: Acc) {
    match item.fn
    case Count => acc.count == |Filter(ids, Counted(rows, item))|
    case Sum => acc.sum == Total(rows, item, ids)
    case Avg => acc.sum == Total(rows, item, ids) && acc.count == |Filter(ids, Numeric(rows, item))|
    case MinOf => Extreme(rows, item, ids, 1, CellOf(acc.least))
    case MaxOf => Extreme(rows, item, ids, -1, CellOf(acc.greatest))
    case _ => true
  }

  lemma TalliesNext(rows: seq<Row>, item: Item, ids: seq<nat>, q: nat, acc: Acc)
    requires q < |rows| && forall i :: 0 <= i < |ids| ==> ids[i] < |rows|
    requires item.fn.MinOf? || item.fn.MaxOf? ==> Uniform(rows, item.argCol)
    requires Tallies(rows, item, ids, acc)
    ensures Tallies(rows, item, ids + [q], Accumulate(item, acc, rows[q]))
  {
    hide FieldCmp, Get, Uniform, ToReal, Extreme;
    assert (ids + [q])[..|ids|] == ids;
    if item.fn.MinOf? {
      ExtremeNext(rows, item, ids, q, 1, acc.least);
      assert acc.least.Some? && Argument(rows, item, q).Some? ==>
          FieldCmp(acc.least.value, Argument(rows, item, q).value)
            == -FieldCmp(Argument(rows, item, q).value, acc.least.value) by {
        if acc.least.Some? && Argument(rows, item, q).Some? {
          FieldCmpOpposed(acc.least.value, Argument(rows, item, q).value);
        }
      }
    } else if item.fn.MaxOf? {
      ExtremeNext(rows, item, ids, q, -1, acc.greatest);
      assert acc.greatest.Some? && Argument(rows, item, q).Some? ==>
          FieldCmp(acc.greatest.value, Argument(rows, item, q).value)
            == -FieldCmp(Argument(rows, item, q).value, acc.greatest.value) by {
        if acc.greatest.Some? && Argument(rows, item, q).Some? {
          FieldCmpOpposed(acc.greatest.value, Argument(rows, item, q).value);
        }
      }
    }
  }

  /** The extreme of one more argument. */
  lemma ExtremeNext(rows: seq<Row>, item: Item, ids: seq<nat>, q: nat, sign: int, best: Option<Value>)
    requires q < |rows| && forall i :: 0 <= i < |ids| ==> ids[i] < |rows|
    requires Uniform(rows, item.argCol) && (sign == 1 || sign == -1)
    requires Extreme(rows, item, ids, sign, CellOf(best))
    ensures var f := Argument(rows, item, q);
            Extreme(rows, item, ids + [q], sign,
                    CellOf(if f.None? then best
                           else if best.None? || sign * FieldCmp(best.value, f.value) > 0 then f else best))
  {
    hide FieldCmp, Get;
    var f := Argument(rows, item, q);
    var more := ids + [q];
    assert forall x :: x in more <==> x in ids || x == q;
    if f.Some? && best.Some? {
      var at :| at in ids && Argument(rows, item, at) == best;
      FieldCmpOpposed(f.value, f.value);
      FieldCmpOpposed(best.value, f.value);
      forall x | x in ids && Argument(rows, item, x).Some? && sign * FieldCmp(best.value, f.value) > 0
        ensures sign * FieldCmp(f.value, Argument(rows, item, x).value) <= 0
      {
        var v := Argument(rows, item, x).value;
        FieldCmpOpposed(best.value, v);
        FieldCmpOpposed(f.value, v);
        if sign == 1 {
          WinCmpTransitive(rows, item.argCol, q, at, x);
        } else {
          WinCmpTransitive(rows, item.argCol, x, at, q);
        }
      }
    } else if f.Some? {
      FieldCmpOpposed(f.value, f.value);
      assert q in more;
    }
  }

  lemma {:induction false} AccumulatedTallies(rows: seq<Row>, item: Item, ids: seq<nat>)
    requires forall i :: 0 <= i < |ids| ==> ids[i] < |rows|
    requires item.fn.MinOf? || item.fn.MaxOf? ==> Uniform(rows, item.argCol)
    ensures Tallies(rows, item, ids, Accumulated(rows, item, ids))
  {
    hide Uniform, Accumulate;
    if ids != [] {
      var front, last := ids[..|ids| - 1], ids[|ids| - 1];
      AccumulatedTallies(rows, item, front);
      TalliesNext(rows, item, front, last, Accumulated(rows, item, front));
      assert front + [last] == ids;
    }
  }

  lemma {:induction false} TotalAppend(rows: seq<Row>, item: Item, a: seq<nat>, b: seq<nat>)
    ensures Total(rows, item, a + b) == Total(rows, item, a) + Total(rows, item, b)
  {
    hide Argument, ToReal;
    if b == [] {
      assert a + b == a;
    } else {
      assert (a + b)[..|a + b| - 1] == a + b[..|b| - 1];
      TotalAppend(rows, item, a, b[..|b| - 1]);
    }
  }

  lemma TakeAway(a: multiset<nat>, b: multiset<nat>, x: nat)
    requires a + multiset{x} == b + multiset{x}
    ensures a == b
  {
    assert a == (a + multiset{x}) - multiset{x};
    assert b == (b + multiset{x}) - multiset{x};
  }

  lemma {:induction false} TotalPermuted(rows: seq<Row>, item: Item, a: seq<nat>, b: seq<nat>)
    requires multiset(a) == multiset(b)
    ensures Total(rows, item, a) == Total(rows, item, b)
    decreases |a|
  {
    hide Total;
    if a == [] {
      assert |multiset(b)| == 0;
      assert b == [];
    } else {
      var front, last := a[..|a| - 1], a[|a| - 1];
      assert a == front + [last];
      assert last in multiset(b);
      var k :| 0 <= k < |b| && b[k] == last;
      var rest := b[..k] + b[k + 1..];
      assert b == b[..k] + [last] + b[k + 1..];
      assert multiset(b) == multiset(b[..k]) + multiset{last} + multiset(b[k + 1..]);
      assert multiset(a) == multiset(front) + multiset{last};
      assert multiset(rest) + multiset{last} == multiset(b);
      TakeAway(multiset(rest), multiset(front), last);
      TotalPermuted(rows, item, front, rest);
      TotalAppend(rows, item, front, [last]);
      TotalAppend(rows, item, b[..k] + [last], b[k + 1..]);
      TotalAppend(rows, item, b[..k], [last]);
      TotalAppend(rows, item, b[..k], b[k + 1..]);
    }
  }

  lemma AggregatePermuted(rows: seq<Row>, item: Item, a: seq<nat>, b: seq<nat>, c: Cell)
    requires multiset(a) == multiset(b) && AggregateIs(rows, item, a, c)
    ensures AggregateIs(rows, item, b, c)
  {
    hide Filter, Total, FieldCmp, Argument;
    FilterPermuted(a, b, Counted(rows, item));
    FilterPermuted(a, b, Numeric(rows, item));
    TotalPermuted(rows, item, a, b);
    forall q
      ensures q in a <==> q in b
    {
      assert q in a <==> q in multiset(a);
      assert q in b <==> q in multiset(b);
    }
  }

  /** The accumulated stretch of the permutation is the aggregate over the rows it consists of. */
  lemma AccumulatedIs(rows: seq<Row>, item: Item, ids: seq<nat>, chosen: seq<nat>)
    requires forall i :: 0 <= i < |ids| ==> ids[i] < |rows|
    requires item.fn.MinOf? || item.fn.MaxOf? ==> Uniform(rows, item.argCol)
    requires multiset(ids) == multiset(chosen)
    ensures AggregateIs(rows, item, chosen, Finish(item, Accumulated(rows, item, ids)))
  {
    hide Filter, Total, Accumulated, Extreme, Uniform;
    AccumulatedTallies(rows, item, ids);
    AggregatePermuted(rows, item, ids, chosen, Finish(item, Accumulated(rows, item, ids)));
  }

  lemma EqualIsSamePart(rows: seq<Row>, item: Item, q: nat, r: nat)
    requires q < |rows| && r < |rows|
    ensures KeyEqual(Ascending(item.partition), rows[q], rows[r]) <==> SamePart(rows, item, q, r)
    ensures KeyEqual(item.order, rows[q], rows[r]) <==> Tied(rows, item, q, r)
  {
    KeyEqualIsCmp(Ascending(item.partition), rows[q], rows[r]);
    KeyEqualIsCmp(item.order, rows[q], rows[r]);
  }

  lemma BlockBounds(rows: seq<Row>, item: Item, order: seq<nat>, lo: nat, hi: nat)
    requires InRange(rows, order) && Block(rows, item, order, lo, hi)
    ensures lo < hi <= |order|
  {
  }
}
