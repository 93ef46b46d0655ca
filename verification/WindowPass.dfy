/** The one pass of window functions over a permutation (src/sql.c). */
module WindowPass {
  import opened Values
  import opened SqlRows
  import opened WindowFunctions

  /** What the pass gives each position is stated for any permutation, sorted or not, whatever the comparison makes
    of the rows. On keys the comparison orders that is what the functions mean (`PassCorrect`); elsewhere it need
    not be (`RankExactly`, `NullsBreakTile`).
   */

  ghost predicate Permutes(rows: seq<Row>, order: seq<nat>) {
    InRange(rows, order) && multiset(order) == multiset(Ids(|rows|))
  }

  lemma {:induction false} IdOnce(n: nat, x: nat)
    ensures multiset(Ids(n))[x] <= 1 && (x >= n ==> multiset(Ids(n))[x] == 0)
  {
    if n > 0 {
      IdOnce(n - 1, x);
      assert Ids(n) == Ids(n - 1) + [n - 1];
      if x == n - 1 {
        IdOnce(n - 1, n - 1);
      }
    }
  }

  lemma PermutesOnce(rows: seq<Row>, order: seq<nat>, i: nat, j: nat)
    requires Permutes(rows, order) && i < j < |order|
    ensures order[i] != order[j]
  {
    if order[i] == order[j] {
      var x := order[i];
      assert order == order[..i] + [x] + order[i + 1..];
      assert order[i + 1..][j - i - 1] == x;
      assert x in multiset(order[i + 1..]);
      IdOnce(|rows|, x);
    }
  }

  // ---------------------------------------------------------------- runs and peers

  /** A row and the one before it are in one partition, as the pass sees it. */
  predicate SameRun(rows: seq<Row>, item: Item, order: seq<nat>, i: nat)
    requires InRange(rows, order) && 0 < i < |order|
  {
    KeyEqual(Ascending(item.partition), rows[order[i]], rows[order[i - 1]])
  }

  predicate TiedBefore(rows: seq<Row>, item: Item, order: seq<nat>, i: nat)
    requires InRange(rows, order) && 0 < i < |order|
  {
    KeyEqual(item.order, rows[order[i]], rows[order[i - 1]])
  }

  /** Where the partition of position `i` starts, looking back row by row. */
  function RunStart(rows: seq<Row>, item: Item, order: seq<nat>, i: nat): (lo: nat)
    requires InRange(rows, order) && i < |order|
    ensures lo <= i
  {
    if i > 0 && SameRun(rows, item, order, i) then RunStart(rows, item, order, i - 1) else i
  }

  /** Where it ends, looking forward row by row. */
  function RunEnd(rows: seq<Row>, item: Item, order: seq<nat>, i: nat): (hi: nat)
    requires InRange(rows, order) && i < |order|
    ensures i < hi <= |order|
    decreases |order| - i
  {
    if i + 1 < |order| && SameRun(rows, item, order, i + 1) then RunEnd(rows, item, order, i + 1) else i + 1
  }

  /** The look-ahead: rows compared with the first of the partition. */
  function LookAhead(rows: seq<Row>, item: Item, order: seq<nat>, start: nat, j: nat): (hi: nat)
    requires InRange(rows, order) && start <= j <= |order| && start < |order|
    ensures j <= hi <= |order| && (j == start ==> start < hi)
    decreases |order| - j
  {
    if j < |order| && (j == start || KeyEqual(Ascending(item.partition), rows[order[j]], rows[order[start]]))
    then LookAhead(rows, item, order, start, j + 1) else j
  }

  function PartEnd(rows: seq<Row>, item: Item, order: seq<nat>, start: nat): (hi: nat)
    requires InRange(rows, order) && start < |order|
    ensures start < hi <= |order|
  {
    LookAhead(rows, item, order, start, start)
  }

  predicate NewPeers(rows: seq<Row>, item: Item, order: seq<nat>, i: nat)
    requires InRange(rows, order) && i < |order|
  {
    i == RunStart(rows, item, order, i) || !TiedBefore(rows, item, order, i)
  }

  function PeerScan(rows: seq<Row>, item: Item, order: seq<nat>, from: nat, to: nat, hi: nat): (last: nat)
    requires InRange(rows, order) && from <= hi < |order| && to <= |order|
    ensures hi <= last < |order|
    decreases |order| - hi
  {
    if hi + 1 < to && KeyEqual(item.order, rows[order[hi + 1]], rows[order[from]])
    then PeerScan(rows, item, order, from, to, hi + 1) else hi
  }

  /** The last peer of position `i`, found once for each group of ties. */
  function PeerHi(rows: seq<Row>, item: Item, order: seq<nat>, i: nat): (last: nat)
    requires InRange(rows, order) && i < |order|
    ensures last < |order|
  {
    if NewPeers(rows, item, order, i)
    then PeerScan(rows, item, order, i, PartEnd(rows, item, order, RunStart(rows, item, order, i)), i)
    else PeerHi(rows, item, order, i - 1)
  }

  function PassNumber(rows: seq<Row>, item: Item, order: seq<nat>, i: nat): nat
    requires InRange(rows, order) && i < |order|
  {
    i - RunStart(rows, item, order, i) + 1
  }

  /** The rank changes where a row does not tie with the one before it. */
  function PassRank(rows: seq<Row>, item: Item, order: seq<nat>, i: nat): nat
    requires InRange(rows, order) && i < |order|
  {
    if NewPeers(rows, item, order, i) then PassNumber(rows, item, order, i) else PassRank(rows, item, order, i - 1)
  }

  function PassDense(rows: seq<Row>, item: Item, order: seq<nat>, i: nat): nat
    requires InRange(rows, order) && i < |order|
  {
    if i == RunStart(rows, item, order, i) then 1
    else PassDense(rows, item, order, i - 1) + if TiedBefore(rows, item, order, i) then 0 else 1
  }

  // ---------------------------------------------------------------- tiles

  function Quotient(x: nat, d: nat): nat
    requires d > 0
  {
    x / d
  }

  function Remainder(x: nat, d: nat): (m: nat)
    requires d > 0
    ensures m < d
  {
    x % d
  }

  /** The rows in the larger buckets. */
  function Early(base: nat, rem: nat): nat {
    rem * (base + 1)
  }

  /** Whether the formula divides by something. */
  predicate TileDefined(size: nat, n: nat, pos: nat)
    requires n > 0
  {
    pos < Early(Quotient(size, n), Remainder(size, n)) || Quotient(size, n) > 0
  }

  function PassTile(size: nat, n: nat, pos: nat): nat
    requires n > 0 && TileDefined(size, n, pos)
  {
    var base, rem := Quotient(size, n), Remainder(size, n);
    if pos < Early(base, rem) then Quotient(pos, base + 1) + 1
    else rem + Quotient(pos - Early(base, rem), base) + 1
  }

  /** It divides by zero exactly when there are fewer rows than buckets and the row lies behind them. */
  lemma TileUndefinedExactly(size: nat, n: nat, pos: nat)
    requires n > 0
    ensures !TileDefined(size, n, pos) <==> size < n && size <= pos
  {
    if size < n {
      assert size / n == 0 && size % n == size;
    } else {
      assert size / n > 0;
    }
  }

  lemma Division(x: nat, d: nat)
    requires d > 0
    ensures (x / d) * d <= x < (x / d) * d + d
  {
  }

  lemma TimesMonotone(a: nat, b: nat, c: nat)
    requires a <= b
    ensures a * c <= b * c
  {
  }

  /** With `base` rows a bucket, `rem` of which get one more. */
  predicate Tile(base: nat, rem: nat, b: nat, pos: nat) {
    && b * base + (if b < rem then b else rem) <= pos
    && pos < b * base + base + (if b < rem then b + 1 else rem)
  }

  lemma EarlyTile(base: nat, rem: nat, pos: nat)
    requires pos < Early(base, rem)
    ensures Quotient(pos, base + 1) < rem && Tile(base, rem, Quotient(pos, base + 1), pos)
  {
    var b := pos / (base + 1);
    Division(pos, base + 1);
    if rem <= b {
      TimesMonotone(rem, b, base + 1);
    }
  }

  lemma LateTile(size: nat, n: nat, base: nat, rem: nat, pos: nat)
    requires n > 0 && base == Quotient(size, n) && rem == Remainder(size, n) && Early(base, rem) <= pos < size
    ensures base > 0
    ensures var b := rem + Quotient(pos - Early(base, rem), base); b < n && Tile(base, rem, b, pos)
  {
    assert size == n * base + rem;
  }

  lemma TileIsTile(size: nat, n: nat, b: nat, pos: nat)
    requires 1 <= n && Tile(Quotient(size, n), Remainder(size, n), b, pos)
    ensures TileStart(size, n, b + 1) <= pos < TileStart(size, n, b + 2)
  {
  }

  /** Inside the partition the formula gives the bucket that holds the row and never divides by zero. */
  lemma TileCorrect(size: nat, n: nat, pos: nat)
    requires n > 0 && pos < size
    ensures TileDefined(size, n, pos)
    ensures var bucket := PassTile(size, n, pos);
      1 <= bucket <= n && TileStart(size, n, bucket) <= pos < TileStart(size, n, bucket + 1)
  {
    hide TileStart, Tile, Quotient, Remainder, Early;
    var base, rem := Quotient(size, n), Remainder(size, n);
    if pos < Early(base, rem) {
      EarlyTile(base, rem, pos);
    } else {
      LateTile(size, n, base, rem, pos);
    }
    TileIsTile(size, n, PassTile(size, n, pos) - 1, pos);
  }

  // ---------------------------------------------------------------- what the pass writes

  predicate Ranks(item: Item) {
    item.fn.RowNumber? || item.fn.Rank? || item.fn.DenseRank?
  }

  /** Aggregates over the whole partition wait for its end. */
  predicate Backfills(item: Item) {
    item.IsAggregate() && item.frame.None?
  }

  /** CURRENT ROW of a RANGE frame means the row's last peer. */
  predicate NeedsPeers(item: Item) {
    item.frame.Some? && item.frame.value.isRange && item.frame.value.end.CurrentRow?
  }

  /** NTILE's division at this position. */
  predicate Defined(rows: seq<Row>, item: Item, order: seq<nat>, i: nat)
    requires item.Valid() && InRange(rows, order) && i < |order|
  {
    var lo := RunStart(rows, item, order, i);
    item.fn.Ntile? ==> TileDefined(PartEnd(rows, item, order, lo) - lo, item.buckets, i - lo)
  }

  function FrameCell(rows: seq<Row>, item: Item, order: seq<nat>, first: int, last: int): Cell
    requires InRange(rows, order) && 0 <= first && last < |order|
  {
    Finish(item, if first <= last then Accumulated(rows, item, order[first..last + 1]) else NOTHING_YET)
  }

  /** The value the pass gives the row at position `i`. */
  function PassCell(rows: seq<Row>, item: Item, order: seq<nat>, i: nat): Cell
    requires item.Valid() && InRange(rows, order) && i < |order| && Defined(rows, item, order, i)
  {
    var lo := RunStart(rows, item, order, i);
    var hi := PartEnd(rows, item, order, lo);
    match item.fn
    case RowNumber => Integer(PassNumber(rows, item, order, i))
    case Rank => Integer(PassRank(rows, item, order, i))
    case DenseRank => Integer(PassDense(rows, item, order, i))
    case Lag => CellOf(if i >= lo + item.offset then Get(rows[order[i - item.offset]], item.argCol) else item.default)
    case Lead => CellOf(if i + item.offset < hi then Get(rows[order[i + item.offset]], item.argCol) else item.default)
    case FirstValue => CellOf(Get(rows[order[lo]], item.argCol))
    case LastValue => CellOf(Get(rows[order[hi - 1]], item.argCol))
    case Ntile => Integer(PassTile(hi - lo, item.buckets, i - lo))
    case _ =>
      if item.frame.None?
      then Finish(item, Accumulated(rows, item, order[lo..RunEnd(rows, item, order, i)]))
      else
        FrameBounds(item.frame.value, lo, hi, i, PeerHi(rows, item, order, i) + 1);
        FrameCell(rows, item, order, FirstOf(item.frame.value, lo, i),
                  LastOf(item.frame.value, hi, i, PeerHi(rows, item, order, i) + 1))
  }

  lemma FrameBounds(f: Frame, partStart: nat, partEnd: nat, si: nat, peersTo: nat)
    ensures FirstOf(f, partStart, si) >= partStart && LastOf(f, partEnd, si, peersTo) < partEnd
  {
  }

  // ---------------------------------------------------------------- the loop

  lemma {:induction false} RunInside(rows: seq<Row>, item: Item, order: seq<nat>, i: nat, k: nat)
    requires InRange(rows, order) && i < |order| && RunStart(rows, item, order, i) <= k <= i
    ensures RunStart(rows, item, order, k) == RunStart(rows, item, order, i)
    ensures k > RunStart(rows, item, order, i) ==> SameRun(rows, item, order, k)
  {
    hide SameRun;
    if k < i {
      RunInside(rows, item, order, i - 1, k);
    }
  }

  lemma {:induction false} RunEndsAt(rows: seq<Row>, item: Item, order: seq<nat>, i: nat, k: nat)
    requires InRange(rows, order) && i < |order| && RunStart(rows, item, order, i) <= k <= i
    requires i + 1 < |order| ==> !SameRun(rows, item, order, i + 1)
    ensures RunEnd(rows, item, order, k) == i + 1
    decreases i - k
  {
    hide SameRun;
    if k < i {
      RunInside(rows, item, order, i, k + 1);
      RunEndsAt(rows, item, order, i, k + 1);
    }
  }

  /** The values of the positions below `upTo` have been written. */
  ghost predicate Done(rows: seq<Row>, item: Item, order: seq<nat>, computed: seq<Cell>, upTo: nat)
    requires item.Valid()
  {
    && |computed| == |rows| && InRange(rows, order) && upTo <= |order|
    && forall i :: 0 <= i < upTo ==>
         Defined(rows, item, order, i) && computed[order[i]] == PassCell(rows, item, order, i)
  }

  lemma DoneNext(rows: seq<Row>, item: Item, order: seq<nat>, computed: seq<Cell>, k: nat, c: Cell)
    requires item.Valid() && Permutes(rows, order) && Done(rows, item, order, computed, k) && k < |order|
    requires Defined(rows, item, order, k) && c == PassCell(rows, item, order, k)
    ensures Done(rows, item, order, computed[order[k] := c], k + 1)
  {
    hide PassCell, Defined;
    forall i | 0 <= i < k
      ensures order[i] != order[k]
    {
      PermutesOnce(rows, order, i, k);
    }
  }

  /** The look-ahead for the end of the partition. */
  method FindPartEnd(rows: seq<Row>, item: Item, order: seq<nat>, partStart: nat) returns (partEnd: nat)
    requires InRange(rows, order) && partStart < |order|
    ensures partEnd == PartEnd(rows, item, order, partStart)
  {
    hide KeyEqual;
    partEnd := partStart;
    while partEnd < |rows|
          && (partEnd == partStart
              || KeyEqual(Ascending(item.partition), rows[order[partEnd]], rows[order[partStart]]))
      invariant partStart <= partEnd <= |rows|
      invariant LookAhead(rows, item, order, partStart, partEnd) == PartEnd(rows, item, order, partStart)
    {
      partEnd := partEnd + 1;
    }
  }

  method FindPeerEnd(rows: seq<Row>, item: Item, order: seq<nat>, partEnd: nat, si: nat) returns (peerHi: nat)
    requires InRange(rows, order) && si < |order| && partEnd <= |order|
    ensures peerHi == PeerScan(rows, item, order, si, partEnd, si)
  {
    hide KeyEqual;
    peerHi := si;
    while peerHi + 1 < partEnd && KeyEqual(item.order, rows[order[peerHi + 1]], rows[order[si]])
      invariant si <= peerHi < |order|
      invariant PeerScan(rows, item, order, si, partEnd, peerHi) == PeerScan(rows, item, order, si, partEnd, si)
    {
      peerHi := peerHi + 1;
    }
  }

  method AccumulateOver(rows: seq<Row>, item: Item, order: seq<nat>, lo: nat, hi: int) returns (acc: Acc)
    requires InRange(rows, order) && lo <= hi + 1 <= |order|
    ensures acc == Accumulated(rows, item, order[lo..hi + 1])
  {
    hide Accumulate;
    acc := NOTHING_YET;
    var k := lo;
    while k <= hi
      invariant lo <= k <= hi + 1
      invariant acc == Accumulated(rows, item, order[lo..k])
    {
      acc := Accumulate(item, acc, rows[order[k]]);
      assert order[lo..k + 1][..k - lo] == order[lo..k];
      k := k + 1;
    }
  }

  /** The moving aggregate of one row, from scratch over its frame. */
  method FrameAggregate(rows: seq<Row>, item: Item, order: seq<nat>, partStart: nat, partEnd: nat, si: nat, peerHi: nat)
    returns (c: Cell)
    requires InRange(rows, order) && item.frame.Some? && partStart <= si < |order| && partEnd <= |order|
    ensures FirstOf(item.frame.value, partStart, si) >= 0
         && LastOf(item.frame.value, partEnd, si, peerHi + 1) < |order|
    ensures c == FrameCell(rows, item, order, FirstOf(item.frame.value, partStart, si),
                           LastOf(item.frame.value, partEnd, si, peerHi + 1))
  {
    FrameBounds(item.frame.value, partStart, partEnd, si, peerHi + 1);
    hide FirstOf, LastOf, Accumulated, Finish;
    var lo, hi := FirstOf(item.frame.value, partStart, si), LastOf(item.frame.value, partEnd, si, peerHi + 1);
    var acc := NOTHING_YET;
    if lo <= hi {
      acc := AccumulateOver(rows, item, order, lo, hi);
    }
    c := Finish(item, acc);
  }

  /** sql.c's backfill: the partition's aggregate for every row of it. */
  method FillPartition(rows: seq<Row>, item: Item, order: seq<nat>, computed: array<Cell>,
                       partStart: nat, si: nat, acc: Acc)
    requires item.Valid() && Backfills(item) && Permutes(rows, order) && partStart < si <= |order|
    requires RunStart(rows, item, order, si - 1) == partStart && (si < |order| ==> !SameRun(rows, item, order, si))
    requires acc == Accumulated(rows, item, order[partStart..si])
    requires Done(rows, item, order, computed[..], partStart)
    modifies computed
    ensures Done(rows, item, order, computed[..], si)
  {
    hide Finish, Accumulated, RunStart, RunEnd, SameRun, Permutes;
    var val := Finish(item, acc);
    var k := partStart;
    while k < si
      invariant partStart <= k <= si
      invariant Done(rows, item, order, computed[..], k)
    {
      RunInside(rows, item, order, si - 1, k);
      RunEndsAt(rows, item, order, si - 1, k);
      DoneNext(rows, item, order, computed[..], k, val);
      ghost var next := computed[..][order[k] := val];
      computed[order[k]] := val;
      assert computed[..] == next;
      k := k + 1;
    }
  }

  /** The value of one row, for the functions that do not wait for the partition's end. */
  method RowCell(rows: seq<Row>, item: Item, order: seq<nat>, partStart: nat, partEnd: nat, si: nat,
                 rowNum: nat, rank: nat, dense: nat, peerHi: nat)
    returns (c: Cell, defined: bool)
    requires item.Valid() && !Backfills(item) && InRange(rows, order) && si < |order|
    requires partStart == RunStart(rows, item, order, si) && partEnd == PartEnd(rows, item, order, partStart)
    requires Ranks(item) ==>
               && rowNum == PassNumber(rows, item, order, si)
               && rank == PassRank(rows, item, order, si)
               && dense == PassDense(rows, item, order, si)
    requires NeedsPeers(item) ==> peerHi == PeerHi(rows, item, order, si)
    ensures defined <==> Defined(rows, item, order, si)
    ensures defined ==> c == PassCell(rows, item, order, si)
  {
    hide RunStart, PartEnd, PassNumber, PassRank, PassDense, PeerHi, FrameCell, Get, PassTile, TileDefined;
    defined := true;
    match item.fn
    case RowNumber =>
      c := Integer(rowNum);
    case Rank =>
      c := Integer(rank);
    case DenseRank =>
      c := Integer(dense);
    case Lag =>
      c := CellOf(item.default);
      if si >= partStart + item.offset {
        c := CellOf(Get(rows[order[si - item.offset]], item.argCol));
      }
    case Lead =>
      c := CellOf(item.default);
      if si + item.offset < partEnd {
        c := CellOf(Get(rows[order[si + item.offset]], item.argCol));
      }
    case FirstValue =>
      c := CellOf(Get(rows[order[partStart]], item.argCol));
    case LastValue =>
      c := CellOf(Get(rows[order[partEnd - 1]], item.argCol));
    case Ntile =>
      defined := TileDefined(partEnd - partStart, item.buckets, si - partStart);
      c := NullCell;
      if defined {
        c := Integer(PassTile(partEnd - partStart, item.buckets, si - partStart));
      }
    case _ =>
      c := FrameAggregate(rows, item, order, partStart, partEnd, si, peerHi);
      PeersMatter(item.frame.value, partEnd, si, peerHi + 1, PeerHi(rows, item, order, si) + 1);
  }

  /** The peers only enter a RANGE frame that ends at the current row. */
  lemma PeersMatter(f: Frame, partEnd: nat, si: nat, a: nat, b: nat)
    ensures a == b || !(f.isRange && f.end.CurrentRow?) ==> LastOf(f, partEnd, si, a) == LastOf(f, partEnd, si, b)
  {
  }

  /** What the loop knows before position `si`: its variables speak of the position before. */
  ghost predicate Known(rows: seq<Row>, item: Item, order: seq<nat>, si: nat, partStart: nat, partEnd: nat,
                        rowNum: nat, rank: nat, dense: nat, peerHi: nat)
    requires InRange(rows, order) && si <= |order|
  {
    if si == 0 then partStart == rowNum == rank == dense == 0
    else
      && partStart == RunStart(rows, item, order, si - 1) && partEnd == PartEnd(rows, item, order, partStart)
      && (Ranks(item) ==>
            && rowNum == PassNumber(rows, item, order, si - 1)
            && rank == PassRank(rows, item, order, si - 1)
            && dense == PassDense(rows, item, order, si - 1))
      && (NeedsPeers(item) ==> peerHi == PeerHi(rows, item, order, si - 1))
  }

  lemma NextPosition(rows: seq<Row>, item: Item, order: seq<nat>, si: nat)
    requires InRange(rows, order) && si < |order|
    ensures var same := si > 0 && SameRun(rows, item, order, si);
      && RunStart(rows, item, order, si) == (if same then RunStart(rows, item, order, si - 1) else si)
      && (NewPeers(rows, item, order, si) <==> !(same && TiedBefore(rows, item, order, si)))
      && PassNumber(rows, item, order, si) == (if same then PassNumber(rows, item, order, si - 1) + 1 else 1)
      && PassDense(rows, item, order, si) == (if same then PassDense(rows, item, order, si - 1) else 0)
           + (if NewPeers(rows, item, order, si) then 1 else 0)
  {
    hide SameRun, TiedBefore;
  }

  lemma NothingAccumulated(rows: seq<Row>, item: Item, order: seq<nat>, si: nat)
    requires InRange(rows, order) && si <= |order|
    ensures Accumulated(rows, item, order[si..si]) == NOTHING_YET
  {
  }

  lemma OneMoreAccumulated(rows: seq<Row>, item: Item, order: seq<nat>, from: nat, si: nat)
    requires InRange(rows, order) && from <= si < |order|
    ensures Accumulated(rows, item, order[from..si + 1])
         == Accumulate(item, Accumulated(rows, item, order[from..si]), rows[order[si]])
  {
    assert order[from..si + 1][..si - from] == order[from..si];
  }

  /** sql.c `sql__compute_window_functions`, one window item. `defined` is false when NTILE would divide by zero,
      where the source's behaviour is undefined and the model stops. */
  method Compute(rows: seq<Row>, item: Item, order: seq<nat>) returns (computed: array<Cell>, defined: bool)
    requires item.Valid() && Permutes(rows, order)
    ensures fresh(computed) && computed.Length == |rows|
    ensures defined <==> forall i :: 0 <= i < |order| ==> Defined(rows, item, order, i)
    ensures defined ==> forall i :: 0 <= i < |order| ==> computed[order[i]] == PassCell(rows, item, order, i)
    ensures Sortable(rows, item) && Sorted(rows, item, order) ==>
              defined && forall r :: 0 <= r < |rows| ==> Correct(rows, item, r, computed[r])
  {
    hide KeyEqual, Correct, Sortable, Sorted, Permutes, RunStart, PartEnd, PassNumber, PassRank, PassDense, PeerHi,
         PassCell, Defined, Accumulate, Accumulated, NewPeers;
    InOrder(rows, order);
    NothingAccumulated(rows, item, order, 0);
    computed := new Cell[|rows|](_ => NullCell);
    defined := true;
    var rowNum, rank, dense, acc := 0, 0, 0, NOTHING_YET;
    var partStart, partEnd, rangePeerHi, si := 0, 0, 0, 0;
    while si <= |rows|
      invariant si <= |rows| == computed.Length == |order| && fresh(computed) && partStart <= si && defined
      invariant si == partStart ==> si == 0
      invariant Known(rows, item, order, si, partStart, partEnd, rowNum, rank, dense, rangePeerHi)
      invariant Backfills(item) ==> acc == Accumulated(rows, item, order[partStart..si])
      invariant Done(rows, item, order, computed[..], if Backfills(item) then partStart else si)
    {
      var atBoundary := si == |rows|
        || (si > partStart && !KeyEqual(Ascending(item.partition), rows[order[si]], rows[order[si - 1]]));
      if atBoundary && si > partStart {
        if Backfills(item) {
          FillPartition(rows, item, order, computed, partStart, si, acc);
        }
        acc, rowNum, rank, dense, partStart := NOTHING_YET, 0, 0, 0, si;
        NothingAccumulated(rows, item, order, si);
      }
      if si == |rows| {
        break;
      }
      NextPosition(rows, item, order, si);
      if si == partStart {
        partEnd := FindPartEnd(rows, item, order, partStart);
      }
      var tied := si > partStart && KeyEqual(item.order, rows[order[si]], rows[order[si - 1]]);
      assert tied <==> !NewPeers(rows, item, order, si);
      if NeedsPeers(item) {
        if !tied {
          rangePeerHi := FindPeerEnd(rows, item, order, partEnd, si);
        }
        PeersAt(rows, item, order, si);
      }
      if Ranks(item) {
        rowNum := rowNum + 1;
        if !tied {
          rank, dense := rowNum, dense + 1;
        }
        RankStep(rows, item, order, si);
      }
      if Backfills(item) {
        acc := Accumulate(item, acc, rows[order[si]]);
        OneMoreAccumulated(rows, item, order, partStart, si);
      } else {
        var c, fine := RowCell(rows, item, order, partStart, partEnd, si, rowNum, rank, dense, rangePeerHi);
        if !fine {
          defined := false;
          SortedDefined(rows, item, order, si);
          return;
        }
        DoneNext(rows, item, order, computed[..], si, c);
        ghost var next := computed[..][order[si] := c];
        computed[order[si]] := c;
        assert computed[..] == next;
      }
      si := si + 1;
    }
    if Sortable(rows, item) && Sorted(rows, item, order) {
      AllCorrect(rows, item, order, computed[..]);
    }
  }

  lemma AllCorrect(rows: seq<Row>, item: Item, order: seq<nat>, computed: seq<Cell>)
    requires item.Valid() && Sortable(rows, item) && Sorted(rows, item, order)
    requires Done(rows, item, order, computed, |rows|)
    ensures forall r :: 0 <= r < |rows| ==> Correct(rows, item, r, computed[r])
  {
    hide Correct, Sortable, Sorted, PassCell, Defined;
    SortedPermutes(rows, item, order);
    forall r | 0 <= r < |rows|
      ensures Correct(rows, item, r, computed[r])
    {
      var i := PositionOf(rows, order, r);
      PassCorrect(rows, item, order, i);
    }
  }

  lemma InOrder(rows: seq<Row>, order: seq<nat>)
    requires Permutes(rows, order)
    ensures InRange(rows, order)
  {
  }

  lemma SortedPermutes(rows: seq<Row>, item: Item, order: seq<nat>)
    requires Sorted(rows, item, order)
    ensures Permutes(rows, order) && multiset(order) == multiset(Ids(|rows|))
  {
  }

  lemma PeersAt(rows: seq<Row>, item: Item, order: seq<nat>, si: nat)
    requires InRange(rows, order) && si < |order|
    ensures PeerHi(rows, item, order, si) ==
      if NewPeers(rows, item, order, si)
      then PeerScan(rows, item, order, si, PartEnd(rows, item, order, RunStart(rows, item, order, si)), si)
      else PeerHi(rows, item, order, si - 1)
  {
  }

  lemma RankStep(rows: seq<Row>, item: Item, order: seq<nat>, si: nat)
    requires InRange(rows, order) && si < |order|
    ensures PassRank(rows, item, order, si) ==
      if NewPeers(rows, item, order, si) then PassNumber(rows, item, order, si) else PassRank(rows, item, order, si - 1)
  {
  }

  // ---------------------------------------------------------------- on keys the comparison orders

  lemma LookAheadParts(rows: seq<Row>, item: Item, order: seq<nat>, lo: nat, j: nat)
    requires InRange(rows, order) && lo <= j <= |order| && lo < |order|
    ensures var hi := LookAhead(rows, item, order, lo, j);
      && (forall k :: j <= k < hi ==> SamePart(rows, item, order[k], order[lo]))
      && (hi < |order| ==> !SamePart(rows, item, order[hi], order[lo]))
    decreases |order| - j
  {
    hide KeyEqual, SamePart;
    EqualIsSamePart(rows, item, order[lo], order[lo]);
    SamePartSelf(rows, item, order[lo]);
    if j < |order| {
      EqualIsSamePart(rows, item, order[j], order[lo]);
      if j == lo || KeyEqual(Ascending(item.partition), rows[order[j]], rows[order[lo]]) {
        LookAheadParts(rows, item, order, lo, j + 1);
      }
    }
  }

  lemma SamePartSelf(rows: seq<Row>, item: Item, q: nat)
    requires q < |rows|
    ensures SamePart(rows, item, q, q)
  {
    KeyCmpOpposed(Ascending(item.partition), rows[q], rows[q]);
  }

  /** The run of a position is its partition's block, looked at from either side. */
  lemma RunIsBlock(rows: seq<Row>, item: Item, order: seq<nat>, i: nat)
    requires Sortable(rows, item) && Sorted(rows, item, order) && i < |order|
    ensures var lo := RunStart(rows, item, order, i);
      var hi := PartEnd(rows, item, order, lo);
      Block(rows, item, order, lo, hi) && i < hi && RunEnd(rows, item, order, i) == hi
      && forall k :: lo <= k < hi ==> RunStart(rows, item, order, k) == lo
  {
    hide KeyEqual, SamePart, WeakOrder, Precedes, RunStart, RunEnd;
    var lo := RunStart(rows, item, order, i);
    var hi := PartEnd(rows, item, order, lo);
    LookAheadParts(rows, item, order, lo, lo);
    RunStartsNew(rows, item, order, i);
    assert Block(rows, item, order, lo, hi);
    if hi <= i {
      RunInside(rows, item, order, i, hi);
      EqualIsSamePart(rows, item, order[hi], order[hi - 1]);
      BlockExact(rows, item, order, lo, hi, hi - 1, hi);
    }
    RunWithin(rows, item, order, lo, hi, hi - 1);
    RunEndsAfter(rows, item, order, lo, hi);
    RunEndsAt(rows, item, order, hi - 1, i);
    forall k | lo <= k < hi
      ensures RunStart(rows, item, order, k) == lo
    {
      RunWithin(rows, item, order, lo, hi, k);
    }
  }

  lemma {:induction false} RunStartsNew(rows: seq<Row>, item: Item, order: seq<nat>, i: nat)
    requires InRange(rows, order) && i < |order|
    ensures var lo := RunStart(rows, item, order, i);
      (lo > 0 ==> !SamePart(rows, item, order[lo], order[lo - 1])) && RunStart(rows, item, order, lo) == lo
  {
    hide KeyEqual, SamePart;
    if i > 0 {
      EqualIsSamePart(rows, item, order[i], order[i - 1]);
      if SameRun(rows, item, order, i) {
        RunStartsNew(rows, item, order, i - 1);
      }
    }
  }

  lemma {:induction false} RunWithin(rows: seq<Row>, item: Item, order: seq<nat>, lo: nat, hi: nat, k: nat)
    requires Sortable(rows, item) && Sorted(rows, item, order) && Block(rows, item, order, lo, hi) && lo <= k < hi
    requires RunStart(rows, item, order, lo) == lo
    ensures RunStart(rows, item, order, k) == lo
  {
    hide KeyEqual, SamePart, WeakOrder, Precedes, Block;
    if k > lo {
      BlockBounds(rows, item, order, lo, hi);
      EqualIsSamePart(rows, item, order[k], order[k - 1]);
      BlockExact(rows, item, order, lo, hi, k, k - 1);
      SamePartBothWays(rows, item, order[k], order[k - 1]);
      RunWithin(rows, item, order, lo, hi, k - 1);
    }
  }

  lemma SamePartBothWays(rows: seq<Row>, item: Item, q: nat, r: nat)
    requires q < |rows| && r < |rows|
    ensures SamePart(rows, item, q, r) <==> SamePart(rows, item, r, q)
  {
    KeyCmpOpposed(Ascending(item.partition), rows[q], rows[r]);
  }

  lemma RunEndsAfter(rows: seq<Row>, item: Item, order: seq<nat>, lo: nat, hi: nat)
    requires Sortable(rows, item) && Sorted(rows, item, order) && Block(rows, item, order, lo, hi)
    ensures hi < |order| ==> !SameRun(rows, item, order, hi)
  {
    hide KeyEqual, SamePart, WeakOrder, Precedes;
    if hi < |order| {
      EqualIsSamePart(rows, item, order[hi], order[hi - 1]);
      BlockExact(rows, item, order, lo, hi, hi - 1, hi);
    }
  }
  /** The whole group of ties from `lo` on, to where the next key or the partition's end is. */
  ghost predicate WholePeers(rows: seq<Row>, item: Item, order: seq<nat>, from: nat, to: nat, lo: nat, hi: nat)
    requires InRange(rows, order) && to <= |order|
  {
    PeerGroup(rows, item, order, from, to, lo, hi) && (hi < to ==> !Tied(rows, item, order[hi], order[lo]))
  }

  /** Ranks of the rows of a partition up to, not including, position `si`. */
  ghost predicate Ranked(rows: seq<Row>, item: Item, order: seq<nat>, partStart: nat, partEnd: nat, si: nat,
                         peerLo: nat, rowNum: nat, rank: nat, dense: nat)
    requires InRange(rows, order) && partStart <= si <= |order|
  {
    && rowNum == si - partStart
    && dense == |Filter(order[partStart..si], LeaderOnly(rows, item))|
    && (si > partStart ==>
          && partEnd <= |order|
          && PeerGroup(rows, item, order, partStart, partEnd, peerLo, si)
          && rank == peerLo - partStart + 1)
  }

  lemma RankedFirst(rows: seq<Row>, item: Item, order: seq<nat>, partEnd: nat, si: nat, peerLo: nat)
    requires InRange(rows, order) && si <= |order|
    ensures Ranked(rows, item, order, si, partEnd, si, peerLo, 0, 0, 0)
  {
  }

  lemma RankedNext(rows: seq<Row>, item: Item, order: seq<nat>, partStart: nat, partEnd: nat, si: nat,
                   peerLo: nat, rowNum: nat, rank: nat, dense: nat, tied: bool)
    requires Sortable(rows, item) && Sorted(rows, item, order) && Block(rows, item, order, partStart, partEnd)
    requires partStart <= si < partEnd
    requires Ranked(rows, item, order, partStart, partEnd, si, peerLo, rowNum, rank, dense)
    requires tied <==> si > partStart && Tied(rows, item, order[si], order[si - 1])
    ensures var lo, r, d := if tied then peerLo else si, if tied then rank else rowNum + 1,
                            if tied then dense else dense + 1;
            && Ranked(rows, item, order, partStart, partEnd, si + 1, lo, rowNum + 1, r, d)
            && RowNumberOf(rows, item, order[si]) == rowNum + 1
            && RankOf(rows, item, order[si]) == r
            && DenseRankOf(rows, item, order[si]) == d
  {
    hide PartCmp, OrdCmp, SamePart, Precedes, WeakOrder, Leader, RowNumberOf, RankOf, DenseRankOf;
    LeaderAt(rows, item, order, partStart, partEnd, si);
    assert order[partStart..si + 1][..si - partStart] == order[partStart..si];
    var lo := if tied then peerLo else si;
    TiedSelf(rows, item, order[si]);
    if tied {
      TiedToGroup(rows, item, order, partStart, partEnd, peerLo, si);
    }
    RowNumberAt(rows, item, order, partStart, partEnd, si);
    RankAt(rows, item, order, partStart, partEnd, lo, si + 1, si);
    DenseRankAt(rows, item, order, partStart, partEnd, si);
  }

  lemma TiedToGroup(rows: seq<Row>, item: Item, order: seq<nat>, from: nat, to: nat, lo: nat, si: nat)
    requires Sortable(rows, item) && Sorted(rows, item, order) && from <= lo < si < to <= |order|
    requires PeerGroup(rows, item, order, from, to, lo, si) && Tied(rows, item, order[si], order[si - 1])
    ensures PeerGroup(rows, item, order, from, to, lo, si + 1)
  {
    hide KeyCmp, Precedes, WeakOrder;
    KeyCmpOpposed(item.order, rows[order[si]], rows[order[si - 1]]);
    KeyCmpOpposed(item.order, rows[order[si - 1]], rows[order[lo]]);
    KeyCmpOpposed(item.order, rows[order[si]], rows[order[lo]]);
    KeyCmpTransitive(rows, item.order, order[si], order[si - 1], order[lo]);
    KeyCmpTransitive(rows, item.order, order[lo], order[si - 1], order[si]);
  }

  /** The pass's ranks, for the rows of a partition up to `i`. */
  lemma {:induction false} RankedUpTo(rows: seq<Row>, item: Item, order: seq<nat>, lo: nat, hi: nat, i: nat)
    returns (peerLo: nat)
    requires Sortable(rows, item) && Sorted(rows, item, order) && Block(rows, item, order, lo, hi) && lo <= i < hi
    requires forall k :: lo <= k < hi ==> RunStart(rows, item, order, k) == lo
    ensures Ranked(rows, item, order, lo, hi, i + 1, peerLo, i - lo + 1, PassRank(rows, item, order, i),
                   PassDense(rows, item, order, i))
    ensures RowNumberOf(rows, item, order[i]) == PassNumber(rows, item, order, i)
    ensures RankOf(rows, item, order[i]) == PassRank(rows, item, order, i)
    ensures DenseRankOf(rows, item, order[i]) == PassDense(rows, item, order, i)
  {
    hide KeyEqual, SamePart, WeakOrder, Precedes, Block, Ranked, Tied, RunStart, RowNumberOf, RankOf, DenseRankOf;
    BlockBounds(rows, item, order, lo, hi);
    var before, tied, rank, dense := 0, false, 0, 0;
    if i == lo {
      RankedFirst(rows, item, order, hi, lo, before);
    } else {
      before := RankedUpTo(rows, item, order, lo, hi, i - 1);
      EqualIsSamePart(rows, item, order[i], order[i - 1]);
      tied := TiedBefore(rows, item, order, i);
      rank, dense := PassRank(rows, item, order, i - 1), PassDense(rows, item, order, i - 1);
    }
    RankedNext(rows, item, order, lo, hi, i, before, i - lo, rank, dense, tied);
    peerLo := if tied then before else i;
  }

  lemma {:induction false} ScanPeers(rows: seq<Row>, item: Item, order: seq<nat>, from: nat, to: nat, hi: nat)
    requires InRange(rows, order) && from <= hi < to <= |order|
    requires forall j :: from <= j <= hi ==> Tied(rows, item, order[j], order[from])
    ensures var last := PeerScan(rows, item, order, from, to, hi);
      && last < to && (forall j :: from <= j <= last ==> Tied(rows, item, order[j], order[from]))
      && (last + 1 < to ==> !Tied(rows, item, order[last + 1], order[from]))
    decreases |order| - hi
  {
    hide KeyEqual, Tied;
    if hi + 1 < to {
      EqualIsSamePart(rows, item, order[hi + 1], order[from]);
      if KeyEqual(item.order, rows[order[hi + 1]], rows[order[from]]) {
        ScanPeers(rows, item, order, from, to, hi + 1);
      }
    }
  }

  lemma {:induction false} PeersUpTo(rows: seq<Row>, item: Item, order: seq<nat>, lo: nat, hi: nat, i: nat)
    returns (peerLo: nat)
    requires Sortable(rows, item) && Sorted(rows, item, order) && Block(rows, item, order, lo, hi) && lo <= i < hi
    requires hi == PartEnd(rows, item, order, lo) && forall k :: lo <= k < hi ==> RunStart(rows, item, order, k) == lo
    ensures hi <= |order| && peerLo <= i <= PeerHi(rows, item, order, i)
    ensures WholePeers(rows, item, order, lo, hi, peerLo, PeerHi(rows, item, order, i) + 1)
  {
    hide KeyEqual, SamePart, WeakOrder, Precedes, RunStart, OrdCmp, PartEnd;
    if i > lo {
      EqualIsSamePart(rows, item, order[i], order[i - 1]);
    }
    if NewPeers(rows, item, order, i) {
      peerLo := i;
      TiedSelf(rows, item, order[i]);
      ScanPeers(rows, item, order, i, hi, i);
    } else {
      peerLo := PeersUpTo(rows, item, order, lo, hi, i - 1);
      var last := PeerHi(rows, item, order, i - 1);
      if i == last + 1 {
        PeersExact(rows, item, order, lo, hi, peerLo, i, i - 1, i);
      }
    }
  }

  lemma PartitionAggregate(rows: seq<Row>, item: Item, order: seq<nat>, lo: nat, hi: nat, i: nat)
    requires item.Valid() && Backfills(item)
    requires Sortable(rows, item) && Sorted(rows, item, order) && Block(rows, item, order, lo, hi) && lo <= i < hi
    ensures Correct(rows, item, order[i], Finish(item, Accumulated(rows, item, order[lo..hi])))
  {
    hide Finish, Accumulated, Precedes, SamePart, WeakOrder, Uniform, AggregateIs;
    var p := InFrame(rows, item, order[i]);
    forall j | 0 <= j < |order|
      ensures p(order[j]) <==> lo <= j < hi
    {
      BlockExact(rows, item, order, lo, hi, i, j);
    }
    ChosenSlice(rows, order, p, lo, hi);
    AccumulatedIs(rows, item, order[lo..hi], Chosen(|rows|, p));
  }

  lemma SortedDefined(rows: seq<Row>, item: Item, order: seq<nat>, i: nat)
    requires item.Valid() && InRange(rows, order) && i < |order|
    ensures Sortable(rows, item) && Sorted(rows, item, order) ==> Defined(rows, item, order, i)
  {
    hide RunStart, PartEnd, TileDefined;
    if Sortable(rows, item) && Sorted(rows, item, order) && item.fn.Ntile? {
      RunIsBlock(rows, item, order, i);
      var lo := RunStart(rows, item, order, i);
      TileCorrect(PartEnd(rows, item, order, lo) - lo, item.buckets, i - lo);
    }
  }

  /** What the pass gives a row of a sorted permutation is what its window function means, in terms of sets of rows. */
  lemma PassCorrect(rows: seq<Row>, item: Item, order: seq<nat>, i: nat)
    requires item.Valid() && Sortable(rows, item) && Sorted(rows, item, order) && i < |order|
    ensures Defined(rows, item, order, i) && Correct(rows, item, order[i], PassCell(rows, item, order, i))
  {
    hide KeyEqual, SamePart, WeakOrder, Precedes, Uniform, RunStart, PartEnd, PassRank, PassDense, PeerHi, PassTile,
         TileDefined, RowNumberOf, RankOf, DenseRankOf, PartSize, NeighbourIs, AggregateIs, TileStart, Get, Block,
         Accumulated, Finish, InFrame, WholePeers, Chosen, FrameCell;
    SortedDefined(rows, item, order, i);
    RunIsBlock(rows, item, order, i);
    var lo := RunStart(rows, item, order, i);
    var hi := PartEnd(rows, item, order, lo);
    RowNumberAt(rows, item, order, lo, hi, i);
    var c := PassCell(rows, item, order, i);
    match item.fn
    case RowNumber =>
    case Rank =>
      var p := RankedUpTo(rows, item, order, lo, hi, i);
    case DenseRank =>
      var p := RankedUpTo(rows, item, order, lo, hi, i);
    case Lag =>
      NeighbourAt(rows, item, order, lo, hi, i, i - lo + 1 - item.offset, c);
    case Lead =>
      NeighbourAt(rows, item, order, lo, hi, i, i - lo + 1 + item.offset, c);
    case FirstValue =>
      NeighbourAt(rows, item, order, lo, hi, i, 1, c);
    case LastValue =>
      NeighbourAt(rows, item, order, lo, hi, i, hi - lo, c);
    case Ntile =>
      TileCorrect(hi - lo, item.buckets, i - lo);
    case _ =>
      if item.frame.None? {
        PartitionAggregate(rows, item, order, lo, hi, i);
      } else {
        FramedCorrect(rows, item, order, lo, hi, i);
      }
  }

  lemma FramedCorrect(rows: seq<Row>, item: Item, order: seq<nat>, lo: nat, hi: nat, i: nat)
    requires item.Valid() && item.frame.Some? && item.IsAggregate() && i < |order|
    requires Sortable(rows, item) && Sorted(rows, item, order) && Block(rows, item, order, lo, hi) && lo <= i < hi
    requires lo == RunStart(rows, item, order, i) && hi == PartEnd(rows, item, order, lo)
    requires forall k :: lo <= k < hi ==> RunStart(rows, item, order, k) == lo
    ensures AggregateIs(rows, item, Chosen(|rows|, InFrame(rows, item, order[i])), PassCell(rows, item, order, i))
  {
    hide KeyEqual, SamePart, WeakOrder, Precedes, Uniform, RunStart, PartEnd, PeerHi, AggregateIs, Block,
         Accumulated, Finish, InFrame, Chosen, FirstOf, LastOf, Accumulate, Tied;
    var f := item.frame.value;
    var peersTo := PeerHi(rows, item, order, i) + 1;
    var first, last := FirstOf(f, lo, i), LastOf(f, hi, i, peersTo);
    FrameBounds(f, lo, hi, i, peersTo);
    var peerLo := 0;
    if NeedsPeers(item) {
      peerLo := PeersUpTo(rows, item, order, lo, hi, i);
    }
    FrameAt(rows, item, order, lo, hi, i, peerLo, peersTo, first, last);
    BlockBounds(rows, item, order, lo, hi);
    var ids := if first <= last then order[first..last + 1] else [];
    NoneAccumulated(rows, item);
    AccumulatedIs(rows, item, ids, Chosen(|rows|, InFrame(rows, item, order[i])));
  }

  lemma NoneAccumulated(rows: seq<Row>, item: Item)
    ensures Accumulated(rows, item, []) == NOTHING_YET
  {
  }

  // ---------------------------------------------------------------- RANK on one order column

  predicate OneOrderColumn(item: Item) {
    item.fn.Rank? && item.partition == [] && |item.order| == 1
  }

  /** The directed comparison of two positions. */
  function At(rows: seq<Row>, item: Item, order: seq<nat>, j: nat, k: nat): int
    requires InRange(rows, order) && j < |order| && k < |order|
  {
    OrdCmp(rows, item, order[j], order[k])
  }

  function ValueAt(rows: seq<Row>, item: Item, order: seq<nat>, j: nat): Option<Value>
    requires InRange(rows, order) && j < |order| && |item.order| == 1
  {
    Get(rows[order[j]], item.order[0].col)
  }

  predicate SameSort(a: Value, b: Value) {
    (IsNumber(a) && IsNumber(b)) || (a.Str? && b.Str?)
  }

  lemma AtIs(rows: seq<Row>, item: Item, order: seq<nat>, j: nat, k: nat)
    requires InRange(rows, order) && j < |order| && k < |order| && |item.order| == 1
    ensures var a, b := ValueAt(rows, item, order, j), ValueAt(rows, item, order, k);
      && At(rows, item, order, j, k) == (if item.order[0].asc then WinCmp(a, b) else -WinCmp(a, b))
      && (a.Some? && b.Some? && !SameSort(a.value, b.value) ==> At(rows, item, order, j, k) == 0)
      && (a.None? && b.Some? ==> At(rows, item, order, j, k) == if item.order[0].asc then -1 else 1)
      && (a.Some? && b.None? ==> At(rows, item, order, j, k) == if item.order[0].asc then 1 else -1)
    ensures At(rows, item, order, j, k) == -At(rows, item, order, k, j)
  {
    hide Get;
    var key := item.order[0];
    assert item.order == [key];
    OneKeyCmp(key, rows[order[j]], rows[order[k]]);
    KeyCmpOpposed(item.order, rows[order[j]], rows[order[k]]);
    hide FieldCmp;
    var a, b := ValueAt(rows, item, order, j), ValueAt(rows, item, order, k);
    if a.Some? && b.Some? {
      DifferentSorts(a.value, b.value);
    }
  }

  lemma DifferentSorts(a: Value, b: Value)
    ensures !SameSort(a, b) ==> FieldCmp(a, b) == 0
  {
  }

  lemma AtTransitive(rows: seq<Row>, item: Item, order: seq<nat>, i: nat, j: nat, k: nat)
    requires InRange(rows, order) && i < |order| && j < |order| && k < |order| && |item.order| == 1
    requires At(rows, item, order, i, j) < 0 && At(rows, item, order, j, k) <= 0
    requires var a, b, c := ValueAt(rows, item, order, i), ValueAt(rows, item, order, j), ValueAt(rows, item, order, k);
      a.Some? && b.Some? && c.Some? && SameSort(a.value, b.value) && SameSort(b.value, c.value)
    ensures At(rows, item, order, i, k) < 0
  {
    AtIs(rows, item, order, i, j);
    AtIs(rows, item, order, j, k);
    AtIs(rows, item, order, i, k);
    AtIs(rows, item, order, k, i);
    hide At, FieldCmp;
    var a, b, c := ValueAt(rows, item, order, i), ValueAt(rows, item, order, j), ValueAt(rows, item, order, k);
    var numeric := IsNumber(b.value);
    FieldCmpOpposed(a.value, b.value);
    FieldCmpOpposed(b.value, c.value);
    FieldCmpOpposed(a.value, c.value);
    if item.order[0].asc {
      if FieldCmp(c.value, a.value) <= 0 {
        FieldCmpTransitive(numeric, b.value, c.value, a.value);
      }
    } else if FieldCmp(a.value, c.value) <= 0 {
      FieldCmpTransitive(numeric, a.value, c.value, b.value);
    }
  }

  lemma SortedAt(rows: seq<Row>, item: Item, order: seq<nat>, j: nat, k: nat)
    requires Sorted(rows, item, order) && OneOrderColumn(item) && j < k < |order|
    ensures At(rows, item, order, j, k) <= 0
  {
    hide KeyCmp;
    NoPartition(rows, item, order[j], order[k]);
    assert Precedes(rows, item, order[j], order[k]);
  }

  lemma {:induction false} OneRun(rows: seq<Row>, item: Item, order: seq<nat>, i: nat)
    requires InRange(rows, order) && item.partition == [] && i < |order|
    ensures RunStart(rows, item, order, i) == 0
  {
    if i > 0 {
      OneRun(rows, item, order, i - 1);
    }
  }

  lemma PassRankNext(rows: seq<Row>, item: Item, order: seq<nat>, i: nat)
    requires InRange(rows, order) && OneOrderColumn(item) && i < |order|
    ensures PassRank(rows, item, order, i) ==
      if i > 0 && At(rows, item, order, i - 1, i) == 0 then PassRank(rows, item, order, i - 1) else i + 1
  {
    hide KeyEqual, RunStart;
    OneRun(rows, item, order, i);
    if i > 0 {
      EqualIsSamePart(rows, item, order[i], order[i - 1]);
      AtIs(rows, item, order, i - 1, i);
    }
  }

  /** How many positions before `j` hold strictly lesser rows. */
  function Lesser(rows: seq<Row>, item: Item, order: seq<nat>, j: nat): nat
    requires InRange(rows, order) && j < |order|
  {
    |Filter(order[..j], Below(rows, item, order[j]))|
  }

  lemma BelowIsAt(rows: seq<Row>, item: Item, order: seq<nat>, k: nat, j: nat)
    requires InRange(rows, order) && k < |order| && j < |order| && item.partition == []
    ensures Below(rows, item, order[j])(order[k]) <==> At(rows, item, order, k, j) < 0
  {
    NoPartition(rows, item, order[k], order[j]);
  }

  /** The definition's rank, on a sorted permutation. */
  lemma RankIsLesser(rows: seq<Row>, item: Item, order: seq<nat>, j: nat)
    requires Sorted(rows, item, order) && OneOrderColumn(item) && j < |order|
    ensures RankOf(rows, item, order[j]) == 1 + Lesser(rows, item, order, j)
  {
    hide At, Below, Filter;
    var p := Below(rows, item, order[j]);
    forall k | j <= k < |order|
      ensures !p(order[k])
    {
      BelowIsAt(rows, item, order, k, j);
      if k > j {
        SortedAt(rows, item, order, j, k);
      }
      AtIs(rows, item, order, j, k);
    }
    FilterTo(order, p, j);
    FilterPermuted(order, Ids(|rows|), p);
  }

  lemma {:induction false} FilterSome(ids: seq<nat>, p: nat -> bool, k: nat)
    requires k < |ids| && p(ids[k])
    ensures |Filter(ids, p)| >= 1
  {
    if k < |ids| - 1 {
      FilterSome(ids[..|ids| - 1], p, k);
    }
  }

  lemma {:induction false} FilterFull(ids: seq<nat>, p: nat -> bool)
    requires |Filter(ids, p)| == |ids|
    ensures forall k :: 0 <= k < |ids| ==> p(ids[k])
  {
    if ids != [] {
      FilterFull(ids[..|ids| - 1], p);
      assert forall k :: 0 <= k < |ids| - 1 ==> ids[..|ids| - 1][k] == ids[k];
    }
  }

  /** Among the first `f` positions all are lesser; among the others before `j` some, none or all. */
  lemma LesserFrom(rows: seq<Row>, item: Item, order: seq<nat>, f: nat, j: nat)
    requires InRange(rows, order) && f <= j < |order| && item.partition == []
    requires forall k :: 0 <= k < f ==> At(rows, item, order, k, j) < 0
    ensures (exists k :: f <= k < j && At(rows, item, order, k, j) < 0) ==> Lesser(rows, item, order, j) >= f + 1
    ensures (forall k :: f <= k < j ==> At(rows, item, order, k, j) >= 0) ==> Lesser(rows, item, order, j) == f
    ensures Lesser(rows, item, order, j) == j ==> forall k :: 0 <= k < j ==> At(rows, item, order, k, j) < 0
  {
    hide At, Below, Filter;
    var p := Below(rows, item, order[j]);
    forall k | 0 <= k < j
      ensures p(order[k]) <==> At(rows, item, order, k, j) < 0
    {
      BelowIsAt(rows, item, order, k, j);
    }
    assert order[..j] == order[..f] + order[f..j];
    FilterAppend(order[..f], order[f..j], p);
    FilterAll(order[..f], p);
    if k :| f <= k < j && At(rows, item, order, k, j) < 0 {
      assert order[f..j][k - f] == order[k];
      FilterSome(order[f..j], p, k - f);
    } else {
      FilterNone(order[f..j], p);
    }
    if Lesser(rows, item, order, j) == j {
      FilterFull(order[..j], p);
      assert forall k :: 0 <= k < j ==> order[..j][k] == order[k];
    }
  }

  /** The missing values are the first ones or the last ones, and lesser than the present ones when first. */
  lemma FirstPresent(rows: seq<Row>, item: Item, order: seq<nat>, b: nat) returns (f: nat)
    requires Sorted(rows, item, order) && OneOrderColumn(item)
    requires b < |order| && ValueAt(rows, item, order, b).Some?
    ensures f <= b && ValueAt(rows, item, order, f).Some?
    ensures forall k :: 0 <= k < f ==> ValueAt(rows, item, order, k).None?
    ensures forall k, j :: 0 <= k < f <= j < |order| && ValueAt(rows, item, order, j).Some? ==>
      At(rows, item, order, k, j) < 0
    ensures forall k, j :: f <= k < j < |order| && ValueAt(rows, item, order, j).Some? ==>
      ValueAt(rows, item, order, k).Some?
  {
    hide At, ValueAt, Sorted;
    InRangeOf(rows, item, order);
    f := 0;
    while ValueAt(rows, item, order, f).None?
      invariant f <= b && forall k :: 0 <= k < f ==> ValueAt(rows, item, order, k).None?
      decreases b - f
    {
      f := f + 1;
    }
    forall k, j | 0 <= k < f <= j < |order| && ValueAt(rows, item, order, j).Some?
      ensures At(rows, item, order, k, j) < 0
    {
      AtIs(rows, item, order, k, j);
      SortedAt(rows, item, order, k, j);
    }
    forall k, j | f <= k < j < |order| && ValueAt(rows, item, order, j).Some?
      ensures ValueAt(rows, item, order, k).Some?
    {
      AtIs(rows, item, order, k, j);
      SortedAt(rows, item, order, k, j);
      if k > f {
        AtIs(rows, item, order, f, k);
        SortedAt(rows, item, order, f, k);
      }
    }
  }

  lemma InRangeOf(rows: seq<Row>, item: Item, order: seq<nat>)
    requires Sorted(rows, item, order)
    ensures InRange(rows, order)
  {
  }

  /** A present row at `i` has a strictly lesser present row before it. */
  predicate HasLesser(rows: seq<Row>, item: Item, order: seq<nat>, i: nat)
    requires InRange(rows, order) && i < |order| && |item.order| == 1
  {
    ValueAt(rows, item, order, i).Some?
    && exists a :: 0 <= a < i && ValueAt(rows, item, order, a).Some? && At(rows, item, order, a, i) < 0
  }

  /** A column that is not uniform has such a row, and a present row of another sort. */
  lemma MixedSorted(rows: seq<Row>, item: Item, order: seq<nat>) returns (b: nat)
    requires Sorted(rows, item, order) && OneOrderColumn(item) && !Uniform(rows, item.order[0].col)
    ensures b < |order| && HasLesser(rows, item, order, b)
    ensures forall i :: 0 <= i < |order| && HasLesser(rows, item, order, i) ==>
      exists m :: 0 <= m < |order| && OtherSort(rows, item, order, m, i)
  {
    hide Get, KeyCmp;
    var col := item.order[0].col;
    var p, q :| 0 <= p < |rows| && 0 <= q < |rows| && Get(rows[p], col).Some? && Get(rows[q], col).Some?
      && WinCmp(Get(rows[p], col), Get(rows[q], col)) != 0;
    var j := PositionIn(rows, item, order, p);
    var k := PositionIn(rows, item, order, q);
    AtIs(rows, item, order, j, k);
    AtIs(rows, item, order, k, j);
    WinCmpOpposed(Get(rows[p], col), Get(rows[p], col));
    if j < k {
      SortedAt(rows, item, order, j, k);
      b := k;
    } else {
      SortedAt(rows, item, order, k, j);
      b := j;
    }
    forall i | 0 <= i < |order| && HasLesser(rows, item, order, i)
      ensures exists m :: 0 <= m < |order| && OtherSort(rows, item, order, m, i)
    {
      AnotherSort(rows, item, order, i);
    }
  }

  predicate OtherSort(rows: seq<Row>, item: Item, order: seq<nat>, m: nat, i: nat)
    requires InRange(rows, order) && i < |order| && m < |order| && |item.order| == 1
  {
    var a, b := ValueAt(rows, item, order, m), ValueAt(rows, item, order, i);
    a.Some? && b.Some? && !SameSort(a.value, b.value)
  }

  lemma PositionIn(rows: seq<Row>, item: Item, order: seq<nat>, r: nat) returns (i: nat)
    requires Sorted(rows, item, order) && r < |rows|
    ensures i < |order| && order[i] == r
  {
    i := PositionOf(rows, order, r);
  }

  lemma AnotherSort(rows: seq<Row>, item: Item, order: seq<nat>, i: nat)
    requires Sorted(rows, item, order) && OneOrderColumn(item) && !Uniform(rows, item.order[0].col)
    requires i < |order| && HasLesser(rows, item, order, i)
    ensures exists m :: 0 <= m < |order| && OtherSort(rows, item, order, m, i)
  {
    hide Get, KeyCmp;
    var col := item.order[0].col;
    var a :| 0 <= a < i && ValueAt(rows, item, order, a).Some? && At(rows, item, order, a, i) < 0;
    AtIs(rows, item, order, a, i);
    var numeric := IsNumber(ValueAt(rows, item, order, i).value);
    var r :| 0 <= r < |rows| && Get(rows[r], col).Some? && !Alike(numeric, Get(rows[r], col).value);
    var m := PositionIn(rows, item, order, r);
    assert OtherSort(rows, item, order, m, i);
  }

  /** The first position after `i` with a value of another sort. */
  lemma FirstOther(rows: seq<Row>, item: Item, order: seq<nat>, i: nat, m: nat) returns (j: nat)
    requires InRange(rows, order) && |item.order| == 1 && i < m < |order| && OtherSort(rows, item, order, m, i)
    ensures i < j <= m && OtherSort(rows, item, order, j, i)
    ensures forall k :: i < k < j ==> !OtherSort(rows, item, order, k, i)
  {
    hide OtherSort;
    j := i + 1;
    while !OtherSort(rows, item, order, j, i)
      invariant i < j <= m && forall k :: i < k < j ==> !OtherSort(rows, item, order, k, i)
      decreases m - j
    {
      j := j + 1;
    }
  }

  lemma FirstWithLesser(rows: seq<Row>, item: Item, order: seq<nat>, b: nat) returns (i: nat)
    requires InRange(rows, order) && |item.order| == 1 && b < |order| && HasLesser(rows, item, order, b)
    ensures i <= b && HasLesser(rows, item, order, i)
    ensures forall k :: 0 <= k < i ==> !HasLesser(rows, item, order, k)
  {
    hide HasLesser;
    i := 0;
    while !HasLesser(rows, item, order, i)
      invariant i <= b && forall k :: 0 <= k < i ==> !HasLesser(rows, item, order, k)
      decreases b - i
    {
      i := i + 1;
    }
  }

  /** Up to there every present row ties with the one before. */
  lemma {:induction false} FlatRanks(rows: seq<Row>, item: Item, order: seq<nat>, f: nat, i: nat, k: nat)
    requires Sorted(rows, item, order) && OneOrderColumn(item) && f <= k < i < |order|
    requires forall j :: f <= j < i ==> ValueAt(rows, item, order, j).Some?
    requires f > 0 ==> At(rows, item, order, f - 1, f) < 0
    requires forall j :: 0 <= j < i ==> !HasLesser(rows, item, order, j)
    ensures PassRank(rows, item, order, k) == f + 1
  {
    hide At, ValueAt, Sorted, PassRank;
    InRangeOf(rows, item, order);
    PassRankNext(rows, item, order, k);
    if k > f {
      FlatRanks(rows, item, order, f, i, k - 1);
      SortedAt(rows, item, order, k - 1, k);
      assert !HasLesser(rows, item, order, k);
    }
  }

  /** In a mixed column some row's rank is not what RANK means. */
  lemma MixedMisranks(rows: seq<Row>, item: Item, order: seq<nat>)
    requires Sorted(rows, item, order) && OneOrderColumn(item) && !Uniform(rows, item.order[0].col)
    ensures exists i :: 0 <= i < |order| && PassRank(rows, item, order, i) != RankOf(rows, item, order[i])
  {
    hide At, ValueAt, Sorted, PassRank, RankOf, Lesser, SameSort;
    InRangeOf(rows, item, order);
    var b := MixedSorted(rows, item, order);
    var i := FirstWithLesser(rows, item, order, b);
    var f := FirstPresent(rows, item, order, i);
    var a :| 0 <= a < i && ValueAt(rows, item, order, a).Some? && At(rows, item, order, a, i) < 0;
    assert f <= a;
    FlatRanks(rows, item, order, f, i, i - 1);
    PassRankNext(rows, item, order, i);
    RankIsLesser(rows, item, order, i);
    LesserFrom(rows, item, order, f, i);
    SortedAt(rows, item, order, i - 1, i);
    if PassRank(rows, item, order, i) == RankOf(rows, item, order[i]) {
      assert forall k :: 0 <= k < i ==> At(rows, item, order, k, i) < 0;
      var m :| 0 <= m < |order| && OtherSort(rows, item, order, m, i);
      AtIs(rows, item, order, m, i);
      OtherNotSelf(rows, item, order, a, i, m);
      assert m > i;
      LaterMisranks(rows, item, order, f, a, i, m);
    }
  }

  lemma OtherNotSelf(rows: seq<Row>, item: Item, order: seq<nat>, a: nat, i: nat, m: nat)
    requires InRange(rows, order) && |item.order| == 1 && a < |order| && i < |order| && m < |order|
    requires ValueAt(rows, item, order, a).Some? && ValueAt(rows, item, order, i).Some?
    requires At(rows, item, order, a, i) < 0
    ensures SameSort(ValueAt(rows, item, order, a).value, ValueAt(rows, item, order, i).value)
    ensures OtherSort(rows, item, order, m, i) ==> m != i
  {
    AtIs(rows, item, order, a, i);
  }

  lemma SortsAgree(a: Value, b: Value, c: Value)
    ensures SameSort(a, b) ==> SameSort(b, a)
    ensures SameSort(a, b) && SameSort(b, c) ==> SameSort(a, c)
  {
  }

  /** The first row of another sort inherits a rank that is too great. */
  lemma LaterMisranks(rows: seq<Row>, item: Item, order: seq<nat>, f: nat, a: nat, i: nat, m: nat)
    requires Sorted(rows, item, order) && OneOrderColumn(item) && f <= a < i < m < |order|
    requires OtherSort(rows, item, order, m, i)
    requires forall k :: f <= k < i ==> ValueAt(rows, item, order, k).Some? && At(rows, item, order, k, i) < 0
    requires forall k, j :: 0 <= k < f <= j < |order| && ValueAt(rows, item, order, j).Some? ==>
      At(rows, item, order, k, j) < 0
    requires forall k, j :: f <= k < j < |order| && ValueAt(rows, item, order, j).Some? ==>
      ValueAt(rows, item, order, k).Some?
    ensures exists i :: 0 <= i < |order| && PassRank(rows, item, order, i) != RankOf(rows, item, order[i])
  {
    hide At, ValueAt, Sorted, PassRank, RankOf, Lesser, SameSort;
    InRangeOf(rows, item, order);
    var j := FirstOther(rows, item, order, i, m);
    forall k | f <= k < j
      ensures ValueAt(rows, item, order, k).Some?
      ensures SameSort(ValueAt(rows, item, order, k).value, ValueAt(rows, item, order, i).value)
      ensures At(rows, item, order, k, j) == 0
    {
      if k < i {
        OtherNotSelf(rows, item, order, k, i, m);
      } else if k == i {
        OtherNotSelf(rows, item, order, a, i, m);
        SortsAgree(ValueAt(rows, item, order, a).value, ValueAt(rows, item, order, i).value,
                   ValueAt(rows, item, order, a).value);
        SortsAgree(ValueAt(rows, item, order, i).value, ValueAt(rows, item, order, a).value,
                   ValueAt(rows, item, order, i).value);
      } else {
        assert !OtherSort(rows, item, order, k, i);
      }
      AtIs(rows, item, order, k, j);
      SortsAgree(ValueAt(rows, item, order, k).value, ValueAt(rows, item, order, j).value,
                 ValueAt(rows, item, order, i).value);
      SortsAgree(ValueAt(rows, item, order, j).value, ValueAt(rows, item, order, k).value,
                 ValueAt(rows, item, order, i).value);
    }
    PassRankNext(rows, item, order, j);
    RankIsLesser(rows, item, order, j);
    LesserFrom(rows, item, order, f, j);
    assert RankOf(rows, item, order[j]) == f + 1;
    var last := j - 1;
    RankIsLesser(rows, item, order, last);
    LesserFrom(rows, item, order, f, last);
    if last > i {
      SortedAt(rows, item, order, i, last);
      SortsAgree(ValueAt(rows, item, order, last).value, ValueAt(rows, item, order, i).value,
                 ValueAt(rows, item, order, last).value);
      AtTransitive(rows, item, order, a, i, last);
    }
    assert At(rows, item, order, a, last) < 0;
    assert RankOf(rows, item, order[last]) >= f + 2;
  }

  /** On one order column, ascending or descending, the pass's ranks are the number of rows strictly before, plus
      one, exactly when the column holds only numbers, only strings, or nothing that differs from anything. */
  lemma RankExactly(rows: seq<Row>, item: Item, order: seq<nat>)
    requires Sorted(rows, item, order) && OneOrderColumn(item)
    ensures (forall i :: 0 <= i < |order| ==> PassRank(rows, item, order, i) == RankOf(rows, item, order[i]))
       <==> Uniform(rows, item.order[0].col)
  {
    hide PassRank, RankOf, Sorted, Uniform;
    InRangeOf(rows, item, order);
    if Uniform(rows, item.order[0].col) {
      forall i | 0 <= i < |order|
        ensures PassRank(rows, item, order, i) == RankOf(rows, item, order[i])
      {
        UniformSortable(rows, item);
        RunIsBlock(rows, item, order, i);
        var lo := RunStart(rows, item, order, i);
        var p := RankedUpTo(rows, item, order, lo, PartEnd(rows, item, order, lo), i);
      }
    } else {
      MixedMisranks(rows, item, order);
    }
  }

  lemma UniformSortable(rows: seq<Row>, item: Item)
    requires OneOrderColumn(item) && Uniform(rows, item.order[0].col)
    ensures Sortable(rows, item)
  {
    hide Uniform;
    ColumnsOrder(rows, item.order);
    ColumnsOrder(rows, Ascending(item.partition));
  }

  // ---------------------------------------------------------------- what NULLs do to it

  /** 1, NULL, 2 is sorted as it stands, and the pass gives all three rank 1. There is one row strictly before the
      last. */
  lemma NullsBreakRank()
    ensures var rows := OneColumnRows([Int(1), Null, Int(2)]);
      && Sorted(rows, RANK_BY_C, [0, 1, 2])
      && (forall i :: 0 <= i < 3 ==> PassRank(rows, RANK_BY_C, [0, 1, 2], i) == 1)
      && RankOf(rows, RANK_BY_C, 2) == 2
  {
    var values := [Int(1), Null, Int(2)];
    var rows, order := OneColumnRows(values), [0, 1, 2];
    SmallInts();
    forall p, q | 0 <= p < 3 && 0 <= q < 3
      ensures OrdCmp(rows, RANK_BY_C, p, q) == FieldCmp(values[p], values[q])
      ensures PartCmp(rows, RANK_BY_C, p, q) == 0
    {
      OrdOfRows(values, p, q);
    }
    hide OrdCmp, PartCmp, FieldCmp, PassRank;
    assert Ids(3) == order;
    var below := Below(rows, RANK_BY_C, 2);
    FilterSlice(Ids(3), below, 0, 1);
    assert Sorted(rows, RANK_BY_C, order);
    PassRankNext(rows, RANK_BY_C, order, 0);
    PassRankNext(rows, RANK_BY_C, order, 1);
    PassRankNext(rows, RANK_BY_C, order, 2);
  }

  const TILE_IN_C := Item(Ntile, "*", ["c"], [], 0, None, 3, None)

  /** In a partition column the look-ahead compares with the first row and the boundary with the row before: 1, NULL,
      2 is one run, but the look-ahead ends it before the 2. NTILE(3) then divides by zero. */
  lemma NullsBreakTile()
    ensures var rows := OneColumnRows([Int(1), Null, Int(2)]);
      && Sorted(rows, TILE_IN_C, [0, 1, 2])
      && RunStart(rows, TILE_IN_C, [0, 1, 2], 2) == 0 && PartEnd(rows, TILE_IN_C, [0, 1, 2], 0) == 2
      && !Defined(rows, TILE_IN_C, [0, 1, 2], 2)
  {
    var values := [Int(1), Null, Int(2)];
    var rows, order := OneColumnRows(values), [0, 1, 2];
    SmallInts();
    assert FieldCmp(Int(1), Int(1)) == 0 && FieldCmp(Int(2), Int(2)) == 0;
    forall p, q | 0 <= p < 3 && 0 <= q < 3
      ensures PartCmp(rows, TILE_IN_C, p, q) == FieldCmp(values[p], values[q])
      ensures KeyEqual(Ascending(["c"]), rows[p], rows[q]) <==> FieldCmp(values[p], values[q]) == 0
      ensures OrdCmp(rows, TILE_IN_C, p, q) == 0
    {
      PartOfRows(values, p, q);
    }
    hide OrdCmp, PartCmp, FieldCmp, KeyEqual, TileDefined;
    assert Ids(3) == order;
    assert Sorted(rows, TILE_IN_C, order);
    assert RunStart(rows, TILE_IN_C, order, 0) == 0;
    assert RunStart(rows, TILE_IN_C, order, 1) == 0;
    assert LookAhead(rows, TILE_IN_C, order, 0, 2) == 2;
    assert LookAhead(rows, TILE_IN_C, order, 0, 1) == 2;
    TileUndefinedExactly(2, 3, 2);
  }

  lemma PartOfRows(values: seq<Value>, p: nat, q: nat)
    requires p < |values| && q < |values|
    ensures PartCmp(OneColumnRows(values), TILE_IN_C, p, q) == FieldCmp(values[p], values[q])
    ensures KeyEqual(Ascending(["c"]), OneColumnRows(values)[p], OneColumnRows(values)[q])
       <==> FieldCmp(values[p], values[q]) == 0
    ensures OrdCmp(OneColumnRows(values), TILE_IN_C, p, q) == 0
  {
    hide FieldCmp;
    var rows := OneColumnRows(values);
    assert Ascending(["c"]) == [Key("c", true)];
    OneKeyCmp(Key("c", true), rows[p], rows[q]);
    KeyEqualIsCmp(Ascending(["c"]), rows[p], rows[q]);
  }
}
