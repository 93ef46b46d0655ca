/** GROUP BY, ROLLUP, CUBE and GROUPING SETS (src/sql.c; ISO/IEC 9075-2:2003 section 7.9). Sums are exact. */
module GroupingSets {
  import opened Values
  import opened SqlRows

  const MAX_GROUPS: nat := 512
  const MAX_GROUP_COLS: nat := 8
  const MAX_CUBE_COLS: nat := 4

  // ---------------------------------------------------------------- the sets of ROLLUP and CUBE

  type Columns = seq<string>

  predicate Bit(mask: nat, b: nat) {
    Pow2Positive(b);
    (mask / Pow2(b)) % 2 == 1
  }

  /** The columns at the positions picked. */
  function Picked(cols: Columns, pick: seq<bool>): Columns
    requires |pick| == |cols|
  {
    if cols == [] then []
    else
      var n := |cols| - 1;
      Picked(cols[..n], pick[..n]) + (if pick[n] then [cols[n]] else [])
  }

  function Pick(mask: nat, n: nat): (pick: seq<bool>)
    ensures |pick| == n
  {
    seq(n, b requires 0 <= b < n => Bit(mask, b))
  }

  function MaskOf(pick: seq<bool>): nat {
    if pick == [] then 0
    else
      var n := |pick| - 1;
      MaskOf(pick[..n]) + (if pick[n] then Pow2(n) else 0)
  }

  lemma {:induction false} Pow2Splits(n: nat, b: nat)
    requires b < n
    ensures Pow2(n) == 2 * Pow2(n - 1 - b) * Pow2(b)
  {
    if b > 0 {
      Pow2Splits(n - 1, b - 1);
      assert Pow2(b) == 2 * Pow2(b - 1);
      assert 2 * Pow2(n - 1 - b) * Pow2(b) == 2 * (2 * Pow2(n - 1 - b) * Pow2(b - 1));
    } else {
      assert Pow2(0) == 1;
    }
  }

  /** A high bit is not seen below. */
  lemma {:induction false} LowBits(mask: nat, n: nat, b: nat)
    requires b < n
    ensures Bit(mask + Pow2(n), b) == Bit(mask, b)
  {
    Pow2Splits(n, b);
    var k, p := Pow2(n - 1 - b), Pow2(b);
    Pow2Positive(b);
    assert Pow2(n) == (2 * k) * p;
    AddMultiple(mask, 2 * k, p);
    assert (mask / p + 2 * k) % 2 == (mask / p) % 2;
  }

  lemma AddMultiple(x: nat, k: nat, p: nat)
    requires p > 0
    ensures (x + k * p) / p == x / p + k
  {
    var q, r := x / p, x % p;
    assert x == q * p + r;
    assert x + k * p == (q + k) * p + r;
    Quotient(x + k * p, p, q + k, r);
  }

  lemma Quotient(x: nat, p: nat, q: nat, r: nat)
    requires p > 0 && x == q * p + r && r < p
    ensures x / p == q
  {
    Division(x, p);
    Sandwich(x, p, x / p, q);
  }

  lemma Division(x: nat, p: nat)
    requires p > 0
    ensures (x / p) * p <= x < (x / p) * p + p
  {
  }

  lemma Sandwich(x: nat, p: nat, d: nat, q: nat)
    requires p > 0 && d * p <= x < d * p + p && q * p <= x < q * p + p
    ensures d == q
  {
    if d < q {
      Monotone(d + 1, q, p);
    } else if q < d {
      Monotone(q + 1, d, p);
    }
  }

  lemma Monotone(a: nat, b: nat, p: nat)
    requires a <= b
    ensures a * p <= b * p
  {
  }

  lemma {:induction false} MaskBelow(pick: seq<bool>)
    ensures MaskOf(pick) < Pow2(|pick|)
  {
    if pick != [] {
      MaskBelow(pick[..|pick| - 1]);
    }
  }

  /** Every choice of columns has its own mask. */
  lemma {:induction false} PickOfMask(pick: seq<bool>)
    ensures Pick(MaskOf(pick), |pick|) == pick
  {
    hide Bit;
    if pick != [] {
      var n := |pick| - 1;
      var low := MaskOf(pick[..n]);
      PickOfMask(pick[..n]);
      MaskBelow(pick[..n]);
      forall b | 0 <= b < |pick|
        ensures Bit(MaskOf(pick), b) == pick[b]
      {
        if b < n {
          assert Pick(low, n)[b] == pick[..n][b];
          if pick[n] {
            LowBits(low, n, b);
          }
        } else {
          HighBit(MaskOf(pick), n);
        }
      }
    }
  }

  lemma {:induction false} HighBit(mask: nat, n: nat)
    requires mask < 2 * Pow2(n)
    ensures Bit(mask, n) <==> mask >= Pow2(n)
  {
    hide Pow2;
    Pow2Positive(n);
    if mask >= Pow2(n) {
      Quotient(mask, Pow2(n), 1, mask - Pow2(n));
    } else {
      Quotient(mask, Pow2(n), 0, mask);
    }
  }

  lemma {:induction false} MaskOfPick(mask: nat, n: nat)
    requires mask < Pow2(n)
    ensures MaskOf(Pick(mask, n)) == mask
  {
    hide Bit;
    if n > 0 {
      var high := mask >= Pow2(n - 1);
      var low := if high then mask - Pow2(n - 1) else mask;
      HighBit(mask, n - 1);
      MaskOfPick(low, n - 1);
      forall b | 0 <= b < n - 1
        ensures Bit(mask, b) == Bit(low, b)
      {
        if high {
          LowBits(low, n - 1, b);
        }
      }
      assert Pick(mask, n)[..n - 1] == Pick(low, n - 1);
    }
  }

  /** The choice the i-th set of a CUBE of n columns makes: masks count down. */
  function PickAt(n: nat, i: nat): (pick: seq<bool>)
    requires i < Pow2(n)
    ensures |pick| == n
  {
    Pick(Pow2(n) - 1 - i, n)
  }

  /** The sets of a ROLLUP are the prefixes, longest first; of a CUBE, one per mask, from all columns to none. */
  function SetsOf(cols: Columns, isCube: bool): seq<Columns> {
    if isCube then
      seq(Pow2(|cols|), i requires 0 <= i < Pow2(|cols|) => Picked(cols, PickAt(|cols|, i)))
    else
      seq(|cols| + 1, i requires 0 <= i < |cols| + 1 => cols[..|cols| - i])
  }

  lemma CubeSetAt(cols: Columns, i: nat)
    requires i < Pow2(|cols|)
    ensures |SetsOf(cols, true)| == Pow2(|cols|)
    ensures SetsOf(cols, true)[i] == Picked(cols, PickAt(|cols|, i))
  {
  }

  /** Each subset of the columns is in a CUBE exactly once. */
  lemma CubeHasEachSubsetOnce(cols: Columns, pick: seq<bool>) returns (at: nat)
    requires |pick| == |cols|
    ensures at < |SetsOf(cols, true)| == Pow2(|cols|)
    ensures SetsOf(cols, true)[at] == Picked(cols, pick)
    ensures forall i :: 0 <= i < Pow2(|cols|) && PickAt(|cols|, i) == pick ==> i == at
  {
    hide Pick, MaskOf, Picked, SetsOf, Pow2;
    var n := |cols|;
    MaskBelow(pick);
    at := Pow2(n) - 1 - MaskOf(pick);
    PickOfMask(pick);
    CubeSetAt(cols, at);
    forall i | 0 <= i < Pow2(n) && PickAt(n, i) == pick
      ensures i == at
    {
      MaskOfPick(Pow2(n) - 1 - i, n);
    }
  }

  /** With different columns, different choices of positions are different sets. */
  lemma {:induction false} PicksDiffer(cols: Columns, a: seq<bool>, b: seq<bool>)
    requires |a| == |b| == |cols| && forall i, j :: 0 <= i < j < |cols| ==> cols[i] != cols[j]
    requires Picked(cols, a) == Picked(cols, b)
    ensures a == b
  {
    if cols != [] {
      var n := |cols| - 1;
      PickedFrom(cols[..n], a[..n], cols[n]);
      PickedFrom(cols[..n], b[..n], cols[n]);
      var pa, pb := Picked(cols[..n], a[..n]), Picked(cols[..n], b[..n]);
      assert a[n] ==> Picked(cols, a)[|pa|] == cols[n];
      assert b[n] ==> Picked(cols, b)[|pb|] == cols[n];
      assert a[n] == b[n];
      assert pa + [] == pa && pb + [] == pb;
      if a[n] {
        assert pa == Picked(cols, a)[..|pa|];
        assert pb == Picked(cols, b)[..|pb|];
      }
      PicksDiffer(cols[..n], a[..n], b[..n]);
      assert a == a[..n] + [a[n]] && b == b[..n] + [b[n]];
    }
  }

  lemma {:induction false} PickedFrom(cols: Columns, pick: seq<bool>, c: string)
    requires |pick| == |cols| && c !in cols
    ensures c !in Picked(cols, pick)
  {
    if cols != [] {
      PickedFrom(cols[..|cols| - 1], pick[..|cols| - 1], c);
    }
  }

  datatype Sets = Sets(sets: seq<Columns>) | TooManyColumns

  /** The generation of grouping sets in sql.c `sql__exec_select_core`. */
  method GroupingSetsOf(cols: Columns, isCube: bool) returns (out: Sets)
    ensures out == if |cols| > MAX_GROUP_COLS || (isCube && |cols| > MAX_CUBE_COLS) then TooManyColumns
                   else Sets(SetsOf(cols, isCube))
  {
    if |cols| > MAX_GROUP_COLS || (isCube && |cols| > MAX_CUBE_COLS) {
      return TooManyColumns;
    }
    var sets := [];
    if isCube {
      var nsubsets := Pow2(|cols|);
      var mask: int := nsubsets - 1;
      while mask >= 0
        invariant -1 <= mask < nsubsets && |sets| == nsubsets - 1 - mask
        invariant sets == SetsOf(cols, true)[..|sets|]
      {
        var chosen, b := [], 0;
        while b < |cols|
          invariant 0 <= b <= |cols|
          invariant chosen == Picked(cols[..b], Pick(mask, b))
        {
          assert cols[..b + 1][..b] == cols[..b] && Pick(mask, b + 1)[..b] == Pick(mask, b);
          if Bit(mask, b) {
            chosen := chosen + [cols[b]];
          }
          b := b + 1;
        }
        assert cols[..b] == cols;
        sets := sets + [chosen];
        mask := mask - 1;
      }
    } else {
      var i := |cols|;
      while i >= 0
        invariant -1 <= i <= |cols| && |sets| == |cols| - i
        invariant sets == SetsOf(cols, false)[..|sets|]
      {
        sets := sets + [cols[..i]];
        i := i - 1;
      }
    }
    assert sets == SetsOf(cols, isCube);
    return Sets(sets);
  }

  // ---------------------------------------------------------------- keys

  type GroupKey = seq<Option<Value>>

  function KeyOf(row: Row, cols: Columns): (key: GroupKey)
    ensures |key| == |cols|
  {
    seq(|cols|, k requires 0 <= k < |cols| => Get(row, cols[k]))
  }

  predicate CellsEqual(a: Option<Value>, b: Option<Value>) {
    if a.None? || b.None? then a == b else FieldEqual(a.value, b.value)
  }

  /** Missing columns are equal to each other; stored NULLs, blobs, arrays and objects equal nothing. */
  predicate KeyEqual(a: GroupKey, b: GroupKey) {
    |a| == |b| && forall k :: 0 <= k < |a| ==> CellsEqual(a[k], b[k])
  }

  lemma KeyEqualLaws(a: GroupKey, b: GroupKey, c: GroupKey)
    ensures KeyEqual(a, b) ==> KeyEqual(b, a)
    ensures KeyEqual(a, b) && KeyEqual(b, c) ==> KeyEqual(a, c)
  {
  }

  /** The keys that equal themselves. */
  predicate ScalarKey(key: GroupKey) {
    forall k :: 0 <= k < |key| && key[k].Some? ==> IsNumber(key[k].value) || key[k].value.Str?
  }

  lemma KeyEqualReflexive(a: GroupKey)
    ensures KeyEqual(a, a) <==> ScalarKey(a)
  {
    assert forall k :: 0 <= k < |a| ==>
      (CellsEqual(a[k], a[k]) <==> a[k].None? || IsNumber(a[k].value) || a[k].value.Str?);
  }

  // ---------------------------------------------------------------- groups

  /** The first group with an equal key, or the number of groups. */
  function FindGroup(keys: seq<GroupKey>, key: GroupKey): (g: nat)
    ensures g <= |keys|
    ensures g < |keys| ==> KeyEqual(keys[g], key)
    ensures forall i :: 0 <= i < g ==> !KeyEqual(keys[i], key)
  {
    if keys == [] then 0
    else if KeyEqual(keys[0], key) then 0
    else 1 + FindGroup(keys[1..], key)
  }

  /** The keys of the groups, in order of first appearance. */
  function Keys(rows: seq<Row>, cols: Columns): seq<GroupKey> {
    if rows == [] then []
    else
      var before, key := Keys(rows[..|rows| - 1], cols), KeyOf(rows[|rows| - 1], cols);
      if FindGroup(before, key) < |before| then before else before + [key]
  }

  /** The group each row lands in. */
  function Assigned(rows: seq<Row>, cols: Columns): (a: seq<nat>)
    ensures |a| == |rows|
  {
    if rows == [] then []
    else
      var front, key := rows[..|rows| - 1], KeyOf(rows[|rows| - 1], cols);
      Assigned(front, cols) + [FindGroup(Keys(front, cols), key)]
  }

  lemma {:induction false} AssignedInRange(rows: seq<Row>, cols: Columns)
    ensures forall r :: 0 <= r < |rows| ==> Assigned(rows, cols)[r] < |Keys(rows, cols)|
  {
    hide KeyEqual, KeyOf;
    if rows != [] {
      AssignedInRange(rows[..|rows| - 1], cols);
    }
  }

  /** Groups have different keys, and none is empty. */
  lemma {:induction false} GroupsAreDistinct(rows: seq<Row>, cols: Columns)
    ensures forall i, j :: 0 <= i < j < |Keys(rows, cols)| ==> !KeyEqual(Keys(rows, cols)[i], Keys(rows, cols)[j])
    ensures forall g :: 0 <= g < |Keys(rows, cols)| ==> g in Assigned(rows, cols)
  {
    hide KeyEqual, KeyOf;
    if rows != [] {
      var front := rows[..|rows| - 1];
      GroupsAreDistinct(front, cols);
      var a, b := Assigned(front, cols), Assigned(rows, cols);
      assert forall r :: 0 <= r < |a| ==> b[r] == a[r];
      assert b[|a|] == FindGroup(Keys(front, cols), KeyOf(rows[|rows| - 1], cols));
    }
  }

  /** A row's group has its key: an equal one, or the very one when it start the group. */
  lemma {:induction false} GroupHasKey(rows: seq<Row>, cols: Columns, r: nat)
    requires r < |rows|
    ensures var g, key := Assigned(rows, cols)[r], KeyOf(rows[r], cols);
            && g < |Keys(rows, cols)|
            && (KeyEqual(Keys(rows, cols)[g], key) || Keys(rows, cols)[g] == key)
  {
    hide KeyEqual, KeyOf;
    AssignedInRange(rows, cols);
    if r < |rows| - 1 {
      GroupHasKey(rows[..|rows| - 1], cols, r);
    }
  }

  /** A row whose key equals itself lands in exactly the group with an equal key. */
  lemma {:induction false} OnlyGroup(rows: seq<Row>, cols: Columns, r: nat, g: nat)
    requires r < |rows| && g < |Keys(rows, cols)| && ScalarKey(KeyOf(rows[r], cols))
    ensures Assigned(rows, cols)[r] == g <==> KeyEqual(Keys(rows, cols)[g], KeyOf(rows[r], cols))
  {
    hide KeyEqual, KeyOf, ScalarKey;
    var key, keys := KeyOf(rows[r], cols), Keys(rows, cols);
    var at := Assigned(rows, cols)[r];
    KeyEqualReflexive(key);
    GroupHasKey(rows, cols, r);
    GroupsAreDistinct(rows, cols);
    if KeyEqual(keys[g], key) && at != g {
      KeyEqualLaws(keys[at], key, key);
      KeyEqualLaws(keys[g], key, key);
      KeyEqualLaws(keys[at], key, keys[g]);
      KeyEqualLaws(keys[g], key, keys[at]);
    }
  }

  // ---------------------------------------------------------------- tallies

  datatype Aggregate = CountStar | CountOf(col: string) | SumOf(col: string)

  datatype Item = Item(fn: Aggregate, filter: Option<Row -> bool>)

  /** What COUNT, SUM and AVG accumulate. */
  datatype Tally = Tally(count: nat, sum: real)

  const ZERO := Tally(0, 0.0)

  function Plus(a: Tally, b: Tally): Tally {
    Tally(a.count + b.count, a.sum + b.sum)
  }

  /** One row's share in an item. */
  function Share(item: Item, row: Row): Tally {
    if item.filter.Some? && !item.filter.value(row) then ZERO
    else
      match item.fn
      case CountStar => Tally(1, 0.0)
      case CountOf(col) => if Get(row, col).Some? then Tally(1, 0.0) else ZERO
      case SumOf(col) =>
        var f := Get(row, col);
        if f.Some? && IsNumber(f.value) then Tally(1, ToReal(f.value)) else ZERO
  }

  function Shares(item: Item, rows: seq<Row>): (shares: seq<Tally>)
    ensures |shares| == |rows|
  {
    seq(|rows|, r requires 0 <= r < |rows| => Share(item, rows[r]))
  }

  /** The shares of the rows whose group is in `which`. */
  function TotalOf(which: nat -> bool, landed: seq<nat>, shares: seq<Tally>): Tally
    requires |landed| == |shares|
  {
    if landed == [] then ZERO
    else
      var n := |landed| - 1;
      Plus(TotalOf(which, landed[..n], shares[..n]), if which(landed[n]) then shares[n] else ZERO)
  }

  function Only(g: nat): nat -> bool {
    (f: nat) => f == g
  }

  /** The tally of one group: the shares of the rows that landed in it. */
  function GroupTally(rows: seq<Row>, cols: Columns, item: Item, g: nat): Tally {
    TotalOf(Only(g), Assigned(rows, cols), Shares(item, rows))
  }

  /** The tallies of the groups in `which`, added up. */
  function SumOfGroups(which: nat -> bool, groups: nat, landed: seq<nat>, shares: seq<Tally>): Tally
    requires |landed| == |shares|
  {
    if groups == 0 then ZERO
    else
      var g := groups - 1;
      Plus(SumOfGroups(which, g, landed, shares), if which(g) then TotalOf(Only(g), landed, shares) else ZERO)
  }

  lemma {:induction false} NoRowsNoTally(which: nat -> bool, groups: nat)
    ensures SumOfGroups(which, groups, [], []) == ZERO
  {
    if groups > 0 {
      NoRowsNoTally(which, groups - 1);
    }
  }

  lemma TotalNext(which: nat -> bool, landed: seq<nat>, shares: seq<Tally>, g: nat, share: Tally)
    requires |landed| == |shares|
    ensures TotalOf(which, landed + [g], shares + [share])
         == Plus(TotalOf(which, landed, shares), if which(g) then share else ZERO)
  {
    assert (landed + [g])[..|landed|] == landed && (shares + [share])[..|shares|] == shares;
  }

  lemma PlusLaws(a: Tally, b: Tally, c: Tally)
    ensures Plus(Plus(a, b), c) == Plus(Plus(a, c), b) == Plus(a, Plus(b, c))
    ensures Plus(a, ZERO) == a
  {
  }

  lemma {:induction false} OneMoreRow(which: nat -> bool, groups: nat, landed: seq<nat>, shares: seq<Tally>,
                                      g: nat, share: Tally)
    requires |landed| == |shares|
    ensures SumOfGroups(which, groups, landed + [g], shares + [share])
         == Plus(SumOfGroups(which, groups, landed, shares), if g < groups && which(g) then share else ZERO)
  {
    hide TotalOf, Plus;
    PlusLaws(ZERO, ZERO, ZERO);
    if groups > 0 {
      var last := groups - 1;
      OneMoreRow(which, last, landed, shares, g, share);
      TotalNext(Only(last), landed, shares, g, share);
      var sum, tally := SumOfGroups(which, last, landed, shares), TotalOf(Only(last), landed, shares);
      PlusLaws(sum, tally, share);
      PlusLaws(sum, share, tally);
      PlusLaws(tally, ZERO, ZERO);
      PlusLaws(sum, ZERO, ZERO);
      PlusLaws(Plus(sum, share), ZERO, ZERO);
      PlusLaws(Plus(sum, tally), ZERO, ZERO);
    }
  }

  /** Adding up groups adds up their rows, each once. */
  lemma {:induction false} GroupsAddUp(which: nat -> bool, groups: nat, landed: seq<nat>, shares: seq<Tally>)
    requires |landed| == |shares| && forall r :: 0 <= r < |landed| ==> landed[r] < groups
    ensures SumOfGroups(which, groups, landed, shares) == TotalOf(which, landed, shares)
  {
    if landed == [] {
      NoRowsNoTally(which, groups);
    } else {
      var n := |landed| - 1;
      GroupsAddUp(which, groups, landed[..n], shares[..n]);
      OneMoreRow(which, groups, landed[..n], shares[..n], landed[n], shares[n]);
      assert landed[..n] + [landed[n]] == landed && shares[..n] + [shares[n]] == shares;
    }
  }

  lemma {:induction false} TotalsAgree(p: nat -> bool, q: nat -> bool, a: seq<nat>, b: seq<nat>, shares: seq<Tally>)
    requires |a| == |b| == |shares|
    requires forall r :: 0 <= r < |a| ==> p(a[r]) == q(b[r])
    ensures TotalOf(p, a, shares) == TotalOf(q, b, shares)
  {
    if a != [] {
      TotalsAgree(p, q, a[..|a| - 1], b[..|a| - 1], shares[..|a| - 1]);
    }
  }

  function Everything(): nat -> bool {
    (f: nat) => true
  }

  const EVERY_ROW := Item(CountStar, None)

  lemma SharesFront(item: Item, rows: seq<Row>)
    requires rows != []
    ensures Shares(item, rows) == Shares(item, rows[..|rows| - 1]) + [Share(item, rows[|rows| - 1])]
  {
    hide Share;
  }

  lemma {:induction false} CountsEveryRow(rows: seq<Row>, landed: seq<nat>)
    requires |landed| == |rows|
    ensures TotalOf(Everything(), landed, Shares(EVERY_ROW, rows)) == Tally(|rows|, 0.0)
  {
    hide TotalOf, Shares;
    if rows != [] {
      var n := |rows| - 1;
      CountsEveryRow(rows[..n], landed[..n]);
      SharesFront(EVERY_ROW, rows);
      TotalNext(Everything(), landed[..n], Shares(EVERY_ROW, rows[..n]), landed[n], Share(EVERY_ROW, rows[n]));
      assert landed[..n] + [landed[n]] == landed;
    } else {
      NoRowsNoTotal(Everything());
    }
  }

  lemma NoRowsNoTotal(which: nat -> bool)
    ensures TotalOf(which, [], []) == ZERO && forall item :: Shares(item, []) == []
  {
  }

  /** For every grouping set, COUNT(*) over the groups totals the number of rows: each row is in one group. */
  lemma {:induction false} CountConserved(rows: seq<Row>, cols: Columns)
    ensures SumOfGroups(Everything(), |Keys(rows, cols)|, Assigned(rows, cols), Shares(EVERY_ROW, rows))
         == Tally(|rows|, 0.0)
  {
    AssignedInRange(rows, cols);
    GroupsAddUp(Everything(), |Keys(rows, cols)|, Assigned(rows, cols), Shares(EVERY_ROW, rows));
    CountsEveryRow(rows, Assigned(rows, cols));
  }

  /** The groups of a finer set whose key begins with this one. */
  function Covered(finer: seq<GroupKey>, key: GroupKey): nat -> bool {
    (f: nat) => f < |finer| && |key| <= |finer[f]| && KeyEqual(key, finer[f][..|key|])
  }

  /** A row's finer group is covered by a coarser one exactly when the row is in the coarser one too. */
  lemma {:induction false} CoveredExactly(rows: seq<Row>, cols: Columns, n: nat, r: nat, g: nat)
    requires n <= |cols| && r < |rows| && g < |Keys(rows, cols[..n])| && ScalarKey(Keys(rows, cols[..n])[g])
    ensures Covered(Keys(rows, cols), Keys(rows, cols[..n])[g])(Assigned(rows, cols)[r])
       <==> Assigned(rows, cols[..n])[r] == g
  {
    hide CellsEqual, Keys, Assigned, ScalarKey;
    var fine, coarse := Keys(rows, cols), Keys(rows, cols[..n]);
    var f := Assigned(rows, cols)[r];
    var fineKey, coarseKey := KeyOf(rows[r], cols), KeyOf(rows[r], cols[..n]);
    assert coarseKey == fineKey[..n];
    GroupHasKey(rows, cols, r);
    GroupHasKey(rows, cols[..n], r);
    KeysWide(rows, cols);
    KeysWide(rows, cols[..n]);
    var prefix := fine[f][..n];
    assert KeyEqual(prefix, coarseKey) || prefix == coarseKey;
    KeyEqualReflexive(coarseKey);
    KeyEqualReflexive(coarse[g]);
    hide KeyEqual;
    KeyEqualLaws(prefix, coarseKey, prefix);
    KeyEqualLaws(coarseKey, prefix, coarseKey);
    KeyEqualLaws(coarse[g], coarseKey, prefix);
    KeyEqualLaws(coarse[g], prefix, coarseKey);
    KeyEqualLaws(coarseKey, coarse[g], coarseKey);
    if ScalarKey(coarseKey) {
      OnlyGroup(rows, cols[..n], r, g);
    }
  }

  lemma {:induction false} KeysWide(rows: seq<Row>, cols: Columns)
    ensures forall g :: 0 <= g < |Keys(rows, cols)| ==> |Keys(rows, cols)[g]| == |cols|
  {
    hide KeyEqual;
    if rows != [] {
      KeysWide(rows[..|rows| - 1], cols);
    }
  }

  /** A coarser ROLLUP row whose own key equals itself is the total of the finer rows it covers, in COUNT and
      in SUM. What the rows hold in the columns that are rolled up, or in other groups, does not matter. */
  lemma RollupConserves(rows: seq<Row>, cols: Columns, n: nat, item: Item, g: nat)
    requires n <= |cols| && g < |Keys(rows, cols[..n])| && ScalarKey(Keys(rows, cols[..n])[g])
    ensures GroupTally(rows, cols[..n], item, g)
         == SumOfGroups(Covered(Keys(rows, cols), Keys(rows, cols[..n])[g]), |Keys(rows, cols)|,
                        Assigned(rows, cols), Shares(item, rows))
  {
    hide Keys, Assigned, Covered, ScalarKey, KeyOf;
    var which := Covered(Keys(rows, cols), Keys(rows, cols[..n])[g]);
    var fine, coarse := Assigned(rows, cols), Assigned(rows, cols[..n]);
    AssignedInRange(rows, cols);
    GroupsAddUp(which, |Keys(rows, cols)|, fine, Shares(item, rows));
    forall r | 0 <= r < |rows|
      ensures which(fine[r]) == Only(g)(coarse[r])
    {
      CoveredExactly(rows, cols, n, r, g);
    }
    TotalsAgree(which, Only(g), fine, coarse, Shares(item, rows));
  }

  /** For COUNT(*) that condition is exact: another coarser row counts its rows and covers no finer row. */
  lemma RollupExactly(rows: seq<Row>, cols: Columns, n: nat, g: nat)
    requires n <= |cols| && g < |Keys(rows, cols[..n])|
    ensures GroupTally(rows, cols[..n], EVERY_ROW, g)
         == SumOfGroups(Covered(Keys(rows, cols), Keys(rows, cols[..n])[g]), |Keys(rows, cols)|,
                        Assigned(rows, cols), Shares(EVERY_ROW, rows))
       <==> ScalarKey(Keys(rows, cols[..n])[g])
  {
    hide Keys, Assigned, ScalarKey, KeyOf, KeyEqual, TotalOf, GroupTally;
    var key := Keys(rows, cols[..n])[g];
    if ScalarKey(key) {
      RollupConserves(rows, cols, n, EVERY_ROW, g);
    } else {
      var which := Covered(Keys(rows, cols), key);
      KeyEqualReflexive(key);
      forall f: nat
        ensures !which(f)
      {
        if which(f) {
          KeyEqualLaws(key, Keys(rows, cols)[f][..|key|], key);
        }
      }
      NothingIn(which, |Keys(rows, cols)|, Assigned(rows, cols), Shares(EVERY_ROW, rows));
      GroupsAreDistinct(rows, cols[..n]);
      CountsItsRows(rows, cols[..n], g);
    }
  }

  lemma {:induction false} NothingIn(which: nat -> bool, groups: nat, landed: seq<nat>, shares: seq<Tally>)
    requires |landed| == |shares| && forall f: nat :: !which(f)
    ensures SumOfGroups(which, groups, landed, shares) == ZERO
  {
    hide TotalOf;
    if groups > 0 {
      NothingIn(which, groups - 1, landed, shares);
    }
  }

  lemma {:induction false} CountsItsRows(rows: seq<Row>, cols: Columns, g: nat)
    ensures g in Assigned(rows, cols) ==> GroupTally(rows, cols, EVERY_ROW, g).count > 0
    decreases |rows|
  {
    hide Keys, KeyOf, FindGroup, TotalOf, Shares;
    if rows != [] {
      var n := |rows| - 1;
      CountsItsRows(rows[..n], cols, g);
      SharesFront(EVERY_ROW, rows);
      TotalNext(Only(g), Assigned(rows[..n], cols), Shares(EVERY_ROW, rows[..n]),
                FindGroup(Keys(rows[..n], cols), KeyOf(rows[n], cols)), Share(EVERY_ROW, rows[n]));
    }
  }

  /** Stored NULLs do not group together: each row of them is a group of its own. */
  lemma NullKeysStandAlone(rows: seq<Row>, cols: Columns, r: nat)
    requires r < |rows| && !ScalarKey(KeyOf(rows[r], cols))
    ensures forall s :: 0 <= s < |rows| && s != r ==> Assigned(rows, cols)[s] != Assigned(rows, cols)[r]
  {
    hide KeyEqual, ScalarKey, KeyOf, Keys, Assigned;
    KeyEqualReflexive(KeyOf(rows[r], cols));
    forall s | 0 <= s < |rows| && s != r
      ensures Assigned(rows, cols)[s] != Assigned(rows, cols)[r]
    {
      StandsAlone(rows, cols, r, s);
    }
  }

  lemma NeverFound(keys: seq<GroupKey>, key: GroupKey)
    requires !KeyEqual(key, key)
    ensures FindGroup(keys, key) == |keys|
  {
    hide KeyEqual;
    var g := FindGroup(keys, key);
    if g < |keys| {
      KeyEqualLaws(keys[g], key, keys[g]);
      KeyEqualLaws(key, keys[g], key);
    }
  }

  lemma {:induction false} StandsAlone(rows: seq<Row>, cols: Columns, r: nat, s: nat)
    requires r < |rows| && s < |rows| && s != r && !KeyEqual(KeyOf(rows[r], cols), KeyOf(rows[r], cols))
    ensures Assigned(rows, cols)[s] != Assigned(rows, cols)[r]
    decreases |rows|
  {
    hide KeyEqual, KeyOf;
    var n := |rows| - 1;
    var front := rows[..n];
    AssignedInRange(front, cols);
    if r < n && s < n {
      StandsAlone(front, cols, r, s);
    } else if r == n {
      NeverFound(Keys(front, cols), KeyOf(rows[n], cols));
    } else {
      var g, key := Assigned(front, cols)[r], KeyOf(rows[r], cols);
      GroupHasKey(front, cols, r);
      KeyEqualLaws(Keys(front, cols)[g], key, Keys(front, cols)[g]);
      KeyEqualLaws(key, Keys(front, cols)[g], key);
      assert Keys(front, cols)[g] == key;
      if FindGroup(Keys(front, cols), KeyOf(rows[s], cols)) == g {
        KeyEqualLaws(key, KeyOf(rows[s], cols), key);
        KeyEqualLaws(KeyOf(rows[s], cols), key, key);
        KeyEqualLaws(key, KeyOf(rows[s], cols), key);
      }
    }
  }

  // ---------------------------------------------------------------- one pass over the rows

  datatype Group = Group(key: GroupKey, tallies: seq<Tally>)

  datatype Grouped = Groups(groups: seq<Group>) | TooManyGroups

  function GroupOf(rows: seq<Row>, items: seq<Item>, cols: Columns, g: nat): Group
    requires g < |Keys(rows, cols)|
  {
    Group(Keys(rows, cols)[g], seq(|items|, it requires 0 <= it < |items| => GroupTally(rows, cols, items[it], g)))
  }

  /** One row a group; without GROUP BY columns one summary row, even of no rows at all. */
  function GroupsOf(rows: seq<Row>, items: seq<Item>, cols: Columns): seq<Group> {
    if rows == [] && cols == [] then [Group([], seq(|items|, _ => ZERO))]
    else seq(|Keys(rows, cols)|, g requires 0 <= g < |Keys(rows, cols)| => GroupOf(rows, items, cols, g))
  }

  lemma TallyNext(rows: seq<Row>, r: nat, cols: Columns, item: Item, g: nat)
    requires r < |rows|
    ensures GroupTally(rows[..r + 1], cols, item, g)
         == Plus(GroupTally(rows[..r], cols, item, g),
                 if FindGroup(Keys(rows[..r], cols), KeyOf(rows[r], cols)) == g then Share(item, rows[r]) else ZERO)
  {
    hide Keys, FindGroup, KeyOf, Share, TotalOf, Plus, Shares;
    var front, next := rows[..r], rows[..r + 1];
    assert next[..r] == front;
    SharesFront(item, next);
    TotalNext(Only(g), Assigned(front, cols), Shares(item, front),
              FindGroup(Keys(front, cols), KeyOf(rows[r], cols)), Share(item, rows[r]));
  }

  lemma {:induction false} NoneLanded(landed: seq<nat>, shares: seq<Tally>, g: nat)
    requires |landed| == |shares| && forall r :: 0 <= r < |landed| ==> landed[r] < g
    ensures TotalOf(Only(g), landed, shares) == ZERO
  {
    if landed != [] {
      NoneLanded(landed[..|landed| - 1], shares[..|landed| - 1], g);
    }
  }

  lemma KeysNext(rows: seq<Row>, r: nat, cols: Columns)
    requires r < |rows|
    ensures var before, key := Keys(rows[..r], cols), KeyOf(rows[r], cols);
            Keys(rows[..r + 1], cols) == if FindGroup(before, key) < |before| then before else before + [key]
  {
    hide KeyEqual, KeyOf, FindGroup;
    assert rows[..r + 1][..r] == rows[..r];
  }

  /** Without columns there is one group. */
  lemma {:induction false} OneGroup(rows: seq<Row>)
    ensures |Keys(rows, [])| == if rows == [] then 0 else 1
    ensures forall row: Row :: FindGroup(Keys(rows, []), KeyOf(row, [])) == 0
  {
    if rows != [] {
      OneGroup(rows[..|rows| - 1]);
    }
  }

  lemma {:induction false} GroupsOnlyGrow(rows: seq<Row>, n: nat, cols: Columns)
    requires n <= |rows|
    ensures |Keys(rows[..n], cols)| <= |Keys(rows, cols)|
    decreases |rows|
  {
    hide KeyEqual, KeyOf, FindGroup;
    if n < |rows| {
      var front := rows[..|rows| - 1];
      GroupsOnlyGrow(front, n, cols);
      assert front[..n] == rows[..n];
    } else {
      assert rows[..n] == rows;
    }
  }

  /** The group table holds the groups of the rows so far. */
  ghost predicate Holds(groups: seq<Group>, ngroups: nat, rows: seq<Row>, items: seq<Item>, cols: Columns) {
    && ngroups == |Keys(rows, cols)| <= |groups|
    && forall g :: 0 <= g < ngroups ==> groups[g] == GroupOf(rows, items, cols, g)
  }

  function Grown(group: Group, items: seq<Item>, row: Row): Group
    requires |group.tallies| == |items|
  {
    Group(group.key, seq(|items|, it requires 0 <= it < |items| => Plus(group.tallies[it], Share(items[it], row))))
  }

  lemma HoldsNext(groups: seq<Group>, ngroups: nat, rows: seq<Row>, r: nat, items: seq<Item>, cols: Columns,
                  gi: nat, start: Group)
    requires r < |rows| && Holds(groups, ngroups, rows[..r], items, cols)
    requires gi == FindGroup(Keys(rows[..r], cols), KeyOf(rows[r], cols)) < |groups|
    requires start == if gi < ngroups then groups[gi]
                       else Group(KeyOf(rows[r], cols), seq(|items|, _ => ZERO))
    requires |start.tallies| == |items|
    ensures Holds(groups[gi := Grown(start, items, rows[r])], if gi < ngroups then ngroups else ngroups + 1,
                  rows[..r + 1], items, cols)
  {
    hide Keys, FindGroup, KeyOf, Share, TotalOf, Plus, GroupTally;
    KeysNext(rows, r, cols);
    AssignedInRange(rows[..r], cols);
    var next := groups[gi := Grown(start, items, rows[r])];
    forall g | 0 <= g < |Keys(rows[..r + 1], cols)|
      ensures next[g] == GroupOf(rows[..r + 1], items, cols, g)
    {
      forall it | 0 <= it < |items|
        ensures next[g].tallies[it] == GroupTally(rows[..r + 1], cols, items[it], g)
      {
        TallyNext(rows, r, cols, items[it], g);
        PlusLaws(GroupTally(rows[..r], cols, items[it], g), ZERO, ZERO);
        if g == gi == ngroups {
          NotYet(rows[..r], cols, items[it]);
        }
      }
    }
  }

  lemma {:induction false} NotYet(rows: seq<Row>, cols: Columns, item: Item)
    ensures GroupTally(rows, cols, item, |Keys(rows, cols)|) == ZERO
  {
    AssignedInRange(rows, cols);
    NoneLanded(Assigned(rows, cols), Shares(item, rows), |Keys(rows, cols)|);
  }

  /** The inner search of `sql__compute_aggregates`. */
  method Search(groups: array<Group>, ngroups: nat, key: GroupKey, ghost keys: seq<GroupKey>) returns (gi: nat)
    requires |keys| == ngroups <= groups.Length && forall g :: 0 <= g < ngroups ==> groups[g].key == keys[g]
    ensures gi == FindGroup(keys, key)
  {
    hide KeyEqual;
    gi := 0;
    while gi < ngroups
      invariant 0 <= gi <= ngroups
      invariant forall i :: 0 <= i < gi ==> !KeyEqual(keys[i], key)
    {
      if KeyEqual(groups[gi].key, key) {
        break;
      }
      gi := gi + 1;
    }
  }

  /** sql.c `sql__compute_aggregates`. */
  method ComputeAggregates(rows: seq<Row>, items: seq<Item>, cols: Columns) returns (out: Grouped)
    ensures out == if |Keys(rows, cols)| > MAX_GROUPS then TooManyGroups else Groups(GroupsOf(rows, items, cols))
  {
    hide Keys, FindGroup, KeyOf, GroupOf, Grown, Plus, Share;
    var groups := new Group[MAX_GROUPS](_ => Group([], []));
    var ngroups, r := 0, 0;
    Nothing(items, cols);
    while r < |rows|
      invariant 0 <= r <= |rows|
      invariant Holds(groups[..], ngroups, rows[..r], items, cols)
      invariant ngroups <= MAX_GROUPS == groups.Length
    {
      var row := rows[r];
      var key := KeyOf(row, cols);
      var gi := 0;
      SearchedKeys(groups[..], ngroups, rows[..r], items, cols);
      OneGroup(rows[..r]);
      KeysNext(rows, r, cols);
      if cols != [] {
        gi := Search(groups, ngroups, key, Keys(rows[..r], cols));
      }
      assert gi == FindGroup(Keys(rows[..r], cols), key);
      ghost var was := groups[..];
      if gi == ngroups {
        if ngroups >= MAX_GROUPS {
          GroupsOnlyGrow(rows, r + 1, cols);
          return TooManyGroups;
        }
        groups[gi] := Group(key, seq(|items|, _ => ZERO));
        ngroups := ngroups + 1;
      }
      GroupWidth(was, |Keys(rows[..r], cols)|, rows[..r], items, cols);
      ghost var start := groups[gi];
      HoldsNext(was, |Keys(rows[..r], cols)|, rows, r, items, cols, gi, start);
      AddShares(groups, gi, items, row);
      assert groups[..] == was[gi := Grown(start, items, row)];
      r := r + 1;
    }
    assert rows[..r] == rows;
    OneGroup(rows);
    if cols == [] && ngroups == 0 {
      groups[0] := Group([], seq(|items|, _ => ZERO));
      ngroups := 1;
    }
    assert groups[..ngroups] == GroupsOf(rows, items, cols);
    return Groups(groups[..ngroups]);
  }

  /** The item loop: each item's share of the row goes into the group's tally. */
  method AddShares(groups: array<Group>, gi: nat, items: seq<Item>, row: Row)
    requires gi < groups.Length && |groups[gi].tallies| == |items|
    modifies groups
    ensures groups[..] == old(groups[..])[gi := Grown(old(groups[gi]), items, row)]
  {
    hide Share, Plus;
    ghost var group := groups[gi];
    var it := 0;
    while it < |items|
      invariant 0 <= it <= |items|
      invariant groups[gi].key == group.key && |groups[gi].tallies| == |items|
      invariant forall k :: 0 <= k < it ==> groups[gi].tallies[k] == Plus(group.tallies[k], Share(items[k], row))
      invariant forall k :: it <= k < |items| ==> groups[gi].tallies[k] == group.tallies[k]
      invariant forall g :: 0 <= g < groups.Length && g != gi ==> groups[g] == old(groups[g])
    {
      var tallies := groups[gi].tallies;
      groups[gi] := Group(groups[gi].key, tallies[it := Plus(tallies[it], Share(items[it], row))]);
      it := it + 1;
    }
    assert groups[gi] == Grown(group, items, row);
  }

  lemma Nothing(items: seq<Item>, cols: Columns)
    ensures Keys([], cols) == []
  {
  }

  lemma GroupWidth(groups: seq<Group>, ngroups: nat, rows: seq<Row>, items: seq<Item>, cols: Columns)
    requires Holds(groups, ngroups, rows, items, cols)
    ensures forall g :: 0 <= g < ngroups ==> |groups[g].tallies| == |items|
  {
  }

  lemma SearchedKeys(groups: seq<Group>, ngroups: nat, rows: seq<Row>, items: seq<Item>, cols: Columns)
    requires Holds(groups, ngroups, rows, items, cols)
    ensures forall g :: 0 <= g < ngroups ==> groups[g].key == Keys(rows, cols)[g]
  {
  }

  function AllGroups(rows: seq<Row>, items: seq<Item>, sets: seq<Columns>): seq<Group> {
    if sets == [] then []
    else AllGroups(rows, items, sets[..|sets| - 1]) + GroupsOf(rows, items, sets[|sets| - 1])
  }

  /** One pass for every grouping set, the results one after the other. */
  method AggregateSets(rows: seq<Row>, items: seq<Item>, sets: seq<Columns>) returns (out: Grouped)
    ensures out.Groups? <==> forall i :: 0 <= i < |sets| ==> |Keys(rows, sets[i])| <= MAX_GROUPS
    ensures out.Groups? ==> out.groups == AllGroups(rows, items, sets)
  {
    hide Keys, GroupsOf;
    var all, si := [], 0;
    while si < |sets|
      invariant 0 <= si <= |sets|
      invariant forall i :: 0 <= i < si ==> |Keys(rows, sets[i])| <= MAX_GROUPS
      invariant all == AllGroups(rows, items, sets[..si])
    {
      var partial := ComputeAggregates(rows, items, sets[si]);
      if partial.TooManyGroups? {
        return TooManyGroups;
      }
      assert sets[..si + 1][..si] == sets[..si];
      all := all + partial.groups;
      si := si + 1;
    }
    assert sets[..si] == sets;
    return Groups(all);
  }

  // ---------------------------------------------------------------- what a tally counts

  /** Whether a row counts for an item: it passes the FILTER, and its argument is present, for a sum a number. */
  predicate Contributes(item: Item, row: Row) {
    && (item.filter.None? || item.filter.value(row))
    && match item.fn
       case CountStar => true
       case CountOf(col) => Get(row, col) != None
       case SumOf(col) => Get(row, col) != None && IsNumber(Get(row, col).value)
  }

  /** The rows of a group that count. */
  function Contributors(rows: seq<Row>, cols: Columns, item: Item, g: nat): set<nat> {
    set r: nat | r < |rows| && Assigned(rows, cols)[r] == g && Contributes(item, rows[r])
  }

  /** What the rows before position `n` add to the sum of a group. */
  function Summed(rows: seq<Row>, cols: Columns, item: Item, g: nat, n: nat): real
    requires n <= |rows|
  {
    if n == 0 then 0.0
    else
      Summed(rows, cols, item, g, n - 1)
      + (if item.fn.SumOf? && n - 1 in Contributors(rows, cols, item, g)
         then ToReal(Get(rows[n - 1], item.fn.col).value) else 0.0)
  }

  lemma ShareMeans(item: Item, row: Row)
    ensures Share(item, row).count == if Contributes(item, row) then 1 else 0
    ensures Share(item, row).sum ==
      if item.fn.SumOf? && Contributes(item, row) then ToReal(Get(row, item.fn.col).value) else 0.0
  {
  }

  function ContributorsBefore(rows: seq<Row>, cols: Columns, item: Item, g: nat, n: nat): set<nat> {
    set r: nat | r < n && r in Contributors(rows, cols, item, g)
  }

  lemma OneMoreContributor(rows: seq<Row>, cols: Columns, item: Item, g: nat, n: nat)
    requires 0 < n <= |rows|
    ensures var before := ContributorsBefore(rows, cols, item, g, n - 1);
      var counts := n - 1 in Contributors(rows, cols, item, g);
      && |ContributorsBefore(rows, cols, item, g, n)| == |before| + (if counts then 1 else 0)
      && (counts <==> Assigned(rows, cols)[n - 1] == g && Contributes(item, rows[n - 1]))
  {
    hide Assigned, Contributes;
    var before := ContributorsBefore(rows, cols, item, g, n - 1);
    assert ContributorsBefore(rows, cols, item, g, n)
        == if n - 1 in Contributors(rows, cols, item, g) then before + {n - 1} else before;
  }

  lemma {:induction false} TallyUpTo(rows: seq<Row>, cols: Columns, item: Item, g: nat, n: nat)
    requires n <= |rows|
    ensures var t := TotalOf(Only(g), Assigned(rows, cols)[..n], Shares(item, rows)[..n]);
      t.count == |ContributorsBefore(rows, cols, item, g, n)| && t.sum == Summed(rows, cols, item, g, n)
  {
    hide Assigned, Share, Contributes, Contributors, ContributorsBefore, TotalOf;
    if n > 0 {
      var landed, shares := Assigned(rows, cols), Shares(item, rows);
      TallyUpTo(rows, cols, item, g, n - 1);
      assert landed[..n] == landed[..n - 1] + [landed[n - 1]] && shares[..n] == shares[..n - 1] + [shares[n - 1]];
      TotalNext(Only(g), landed[..n - 1], shares[..n - 1], landed[n - 1], shares[n - 1]);
      ShareMeans(item, rows[n - 1]);
      OneMoreContributor(rows, cols, item, g, n);
    } else {
      NoneBefore(rows, cols, item, g);
    }
  }

  lemma NoneBefore(rows: seq<Row>, cols: Columns, item: Item, g: nat)
    ensures ContributorsBefore(rows, cols, item, g, 0) == {} && TotalOf(Only(g), [], []) == ZERO
  {
  }

  /** A group's COUNT is the number of its rows that pass the FILTER and have the argument, its SUM the sum of the
      numbers these have there. */
  lemma TallyMeans(rows: seq<Row>, cols: Columns, item: Item, g: nat)
    ensures GroupTally(rows, cols, item, g).count == |Contributors(rows, cols, item, g)|
    ensures GroupTally(rows, cols, item, g).sum == Summed(rows, cols, item, g, |rows|)
  {
    hide Assigned, Contributes;
    TallyUpTo(rows, cols, item, g, |rows|);
    assert Assigned(rows, cols)[..|rows|] == Assigned(rows, cols);
    assert Shares(item, rows)[..|rows|] == Shares(item, rows);
    assert ContributorsBefore(rows, cols, item, g, |rows|) == Contributors(rows, cols, item, g);
  }
}
