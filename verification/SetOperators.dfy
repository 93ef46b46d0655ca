/** DISTINCT, UNION, INTERSECT and EXCEPT over row arrays, in place (src/sql.c). */
module SetOperators {
  import opened Values
  import opened SqlRows

  /** Row equality is symmetric and transitive but not reflexive (see `SqlRows.RowEqualReflexive`), so every
    statement below is about counts up to that equality and holds for rows with blobs in them too.
   */

  // ---------------------------------------------------------------- counting up to row equality

  /** How many of the rows equal `r`. */
  function Count(rows: seq<Row>, r: Row): nat {
    if rows == [] then 0
    else Count(rows[..|rows| - 1], r) + (if RowEqual(rows[|rows| - 1], r) then 1 else 0)
  }

  lemma {:induction false} CountAppend(a: seq<Row>, b: seq<Row>, r: Row)
    ensures Count(a + b, r) == Count(a, r) + Count(b, r)
  {
    hide RowEqual;
    if b == [] {
      assert a + b == a;
    } else {
      assert (a + b)[..|a + b| - 1] == a + b[..|b| - 1];
      CountAppend(a, b[..|b| - 1], r);
    }
  }

  lemma {:induction false} CountRespects(rows: seq<Row>, a: Row, b: Row)
    requires RowEqual(a, b)
    ensures Count(rows, a) == Count(rows, b)
  {
    hide RowEqual;
    if rows != [] {
      var last := rows[|rows| - 1];
      CountRespects(rows[..|rows| - 1], a, b);
      RowEqualSymmetric(a, b);
      if RowEqual(last, a) {
        RowEqualTransitive(last, a, b);
      } else if RowEqual(last, b) {
        RowEqualTransitive(last, b, a);
      }
    }
  }

  lemma {:induction false} CountPositive(rows: seq<Row>, r: Row)
    ensures Count(rows, r) > 0 <==> exists j :: 0 <= j < |rows| && RowEqual(rows[j], r)
  {
    hide RowEqual;
    if rows != [] {
      var front := rows[..|rows| - 1];
      CountPositive(front, r);
      if Count(front, r) > 0 {
        var j :| 0 <= j < |front| && RowEqual(front[j], r);
        assert RowEqual(rows[j], r);
      } else if exists j :: 0 <= j < |rows| && RowEqual(rows[j], r) {
        var j :| 0 <= j < |rows| && RowEqual(rows[j], r);
        assert j < |front| ==> RowEqual(front[j], r);
      }
    }
  }

  lemma {:induction false} CountUnequal(rows: seq<Row>, r: Row)
    requires !RowEqual(r, r)
    ensures Count(rows, r) == 0
  {
    hide RowEqual;
    CountPositive(rows, r);
    if j :| 0 <= j < |rows| && RowEqual(rows[j], r) {
      RowEqualSymmetric(rows[j], r);
      RowEqualTransitive(r, rows[j], r);
    }
  }

  // ---------------------------------------------------------------- what each operator keeps

  datatype Keep = First | Matched | Unmatched | Present | Absent

  /** Whether a row survives, given the rows before it and the other operand. */
  predicate Survives(k: Keep, before: seq<Row>, r: Row, src: seq<Row>) {
    match k
    case First => Count(before, r) == 0
    case Matched => Count(before, r) < Count(src, r)
    case Unmatched => Count(before, r) >= Count(src, r)
    case Present => Count(src, r) > 0
    case Absent => Count(src, r) == 0
  }

  /** The survivors, in their original order. */
  function Survivors(k: Keep, rows: seq<Row>, src: seq<Row>): (out: seq<Row>)
    ensures |out| <= |rows|
  {
    if rows == [] then []
    else
      var front, last := rows[..|rows| - 1], rows[|rows| - 1];
      Survivors(k, front, src) + (if Survives(k, front, last, src) then [last] else [])
  }

  function Distinct(rows: seq<Row>): seq<Row> {
    Survivors(First, rows, [])
  }

  function Intersection(rows: seq<Row>, src: seq<Row>, all: bool): seq<Row> {
    if all then Survivors(Matched, rows, src) else Distinct(Survivors(Present, rows, src))
  }

  function Difference(rows: seq<Row>, src: seq<Row>, all: bool): seq<Row> {
    if all then Survivors(Unmatched, rows, src) else Distinct(Survivors(Absent, rows, src))
  }

  function Min(a: nat, b: nat): nat {
    if a < b then a else b
  }

  function Monus(a: nat, b: nat): nat {
    if a < b then 0 else a - b
  }

  /** How many of `n` equal rows survive when the other operand has `m` of them. */
  function Multiplicity(k: Keep, n: nat, m: nat): nat {
    match k
    case First => Min(n, 1)
    case Matched => Min(n, m)
    case Unmatched => Monus(n, m)
    case Present => if m > 0 then n else 0
    case Absent => if m == 0 then n else 0
  }

  lemma CountNext(rows: seq<Row>, last: Row, r: Row)
    ensures Count(rows + [last], r) == Count(rows, r) + (if RowEqual(last, r) then 1 else 0)
  {
    hide RowEqual;
    assert (rows + [last])[..|rows|] == rows;
  }

  /** Which of `n` equal rows survives, seen from the last of them. */
  lemma LastSurvives(k: Keep, front: seq<Row>, last: Row, src: seq<Row>)
    ensures Multiplicity(k, Count(front, last) + 1, Count(src, last))
         == Multiplicity(k, Count(front, last), Count(src, last)) + (if Survives(k, front, last, src) then 1 else 0)
  {
  }

  lemma {:induction false} SurvivorCount(k: Keep, rows: seq<Row>, src: seq<Row>, r: Row)
    ensures Count(Survivors(k, rows, src), r) == Multiplicity(k, Count(rows, r), Count(src, r))
  {
    if rows != [] {
      var front, last := rows[..|rows| - 1], rows[|rows| - 1];
      SurvivorCount(k, front, src, r);
      SurvivorCountNext(k, front, last, src, r);
      assert front + [last] == rows;
    }
  }

  lemma {:induction false} SurvivorCountNext(k: Keep, front: seq<Row>, last: Row, src: seq<Row>, r: Row)
    requires Count(Survivors(k, front, src), r) == Multiplicity(k, Count(front, r), Count(src, r))
    ensures Count(Survivors(k, front + [last], src), r)
         == Multiplicity(k, Count(front + [last], r), Count(src, r))
  {
    hide RowEqual, Count, Survives, Multiplicity;
    assert (front + [last])[..|front|] == front;
    CountNext(front, last, r);
    CountNext(Survivors(k, front, src), last, r);
    LastSurvives(k, front, last, src);
    if RowEqual(last, r) {
      CountRespects(front, last, r);
      CountRespects(src, last, r);
    }
    assert Survivors(k, front, src) + [] == Survivors(k, front, src);
  }

  /** INTERSECT ALL keeps min(n, m) of equal rows; without ALL each row in both operands is left once. */
  lemma IntersectionCount(rows: seq<Row>, src: seq<Row>, all: bool, r: Row)
    ensures Count(Intersection(rows, src, all), r)
         == if all then Min(Count(rows, r), Count(src, r))
            else if Count(rows, r) > 0 && Count(src, r) > 0 then 1 else 0
  {
    if all {
      SurvivorCount(Matched, rows, src, r);
    } else {
      SurvivorCount(Present, rows, src, r);
      SurvivorCount(First, Survivors(Present, rows, src), [], r);
    }
  }

  /** EXCEPT ALL keeps max(0, n - m) of equal rows; without ALL each row of the first operand only, once. */
  lemma DifferenceCount(rows: seq<Row>, src: seq<Row>, all: bool, r: Row)
    ensures Count(Difference(rows, src, all), r)
         == if all then Monus(Count(rows, r), Count(src, r))
            else if Count(rows, r) > 0 && Count(src, r) == 0 then 1 else 0
  {
    if all {
      SurvivorCount(Unmatched, rows, src, r);
    } else {
      SurvivorCount(Absent, rows, src, r);
      SurvivorCount(First, Survivors(Absent, rows, src), [], r);
    }
  }

  /** A row that does not equal itself (it holds a blob, array or object) is in no intersection, and no
    difference or DISTINCT ever removes it, not even its copies. */
  lemma UnequalRowsSurvive(k: Keep, before: seq<Row>, r: Row, src: seq<Row>)
    requires !RowEqual(r, r)
    ensures Survives(k, before, r, src) <==> !k.Matched? && !k.Present?
  {
    CountUnequal(before, r);
    CountUnequal(src, r);
  }

  // ---------------------------------------------------------------- order

  predicate Ascending(at: seq<nat>, n: nat) {
    && (forall i :: 0 <= i < |at| ==> at[i] < n)
    && (forall i, j :: 0 <= i < j < |at| ==> at[i] < at[j])
  }

  predicate PickedAt(out: seq<Row>, rows: seq<Row>, at: seq<nat>) {
    |out| == |at| && forall i :: 0 <= i < |at| ==> at[i] < |rows| && out[i] == rows[at[i]]
  }

  predicate SurvivesAt(k: Keep, rows: seq<Row>, src: seq<Row>, p: nat)
    requires p < |rows|
  {
    Survives(k, rows[..p], rows[p], src)
  }

  lemma SurvivesAtFront(k: Keep, front: seq<Row>, last: Row, src: seq<Row>, p: nat)
    requires p <= |front|
    ensures SurvivesAt(k, front + [last], src, p)
       <==> if p < |front| then SurvivesAt(k, front, src, p) else Survives(k, front, last, src)
  {
    hide Survives;
    assert p < |front| ==> (front + [last])[..p] == front[..p];
    assert (front + [last])[..|front|] == front;
  }

  /** The positions of the survivors. */
  ghost predicate Surviving(k: Keep, rows: seq<Row>, src: seq<Row>, at: seq<nat>) {
    && Ascending(at, |rows|)
    && PickedAt(Survivors(k, rows, src), rows, at)
    && forall p :: 0 <= p < |rows| ==> (p in at <==> SurvivesAt(k, rows, src, p))
  }

  /** Survivors are exactly the surviving positions, in ascending order. */
  lemma {:induction false} SurvivorsKeepOrder(k: Keep, rows: seq<Row>, src: seq<Row>) returns (at: seq<nat>)
    ensures Surviving(k, rows, src, at)
  {
    hide RowEqual, Survives, SurvivesAt;
    if rows == [] {
      at := [];
    } else {
      var n := |rows| - 1;
      at := SurvivorsKeepOrder(k, rows[..n], src);
      PositionsNext(k, rows[..n], rows[n], src, at);
      assert rows[..n] + [rows[n]] == rows;
      if Survives(k, rows[..n], rows[n], src) {
        at := at + [n];
      }
    }
  }

  lemma PickNext(out: seq<Row>, front: seq<Row>, last: Row, at: seq<nat>, keep: bool)
    requires Ascending(at, |front|) && PickedAt(out, front, at)
    ensures Ascending(if keep then at + [|front|] else at, |front| + 1)
    ensures PickedAt(out + (if keep then [last] else []), front + [last], if keep then at + [|front|] else at)
    ensures |front| !in at
  {
    var more, rows := at + [|front|], front + [last];
    assert forall i :: 0 <= i < |at| ==> more[i] == at[i] && at[i] < |front|;
    assert forall p :: 0 <= p < |front| ==> rows[p] == front[p];
    if keep {
      PickLast(out, front, last, at);
    } else {
      assert out + [] == out;
    }
  }

  lemma PickLast(out: seq<Row>, front: seq<Row>, last: Row, at: seq<nat>)
    requires Ascending(at, |front|) && PickedAt(out, front, at)
    ensures Ascending(at + [|front|], |front| + 1) && PickedAt(out + [last], front + [last], at + [|front|])
  {
    var more := at + [|front|];
    assert forall i :: 0 <= i < |at| ==> more[i] == at[i];
    assert more[|at|] == |front| && (front + [last])[|front|] == last;
  }

  lemma PositionsNext(k: Keep, front: seq<Row>, last: Row, src: seq<Row>, at: seq<nat>)
    requires Surviving(k, front, src, at)
    ensures Surviving(k, front + [last], src,
                      if Survives(k, front, last, src) then at + [|front|] else at)
  {
    hide RowEqual, Survives, SurvivesAt, Survivors, Ascending, PickedAt;
    var rows, n := front + [last], |front|;
    SurvivorsNext(k, rows, n, src);
    assert rows[..n] == front && rows[..n + 1] == rows;
    PickNext(Survivors(k, front, src), front, last, at, Survives(k, front, last, src));
    forall p | 0 <= p < |rows|
      ensures SurvivesAt(k, rows, src, p) <==> p in at || (p == n && Survives(k, front, last, src))
    {
      SurvivesAtFront(k, front, last, src, p);
    }
  }

  // ---------------------------------------------------------------- the used flags of the ALL forms

  /** How many rows equal to `r` have been used. */
  function Used(src: seq<Row>, used: seq<bool>, r: Row): nat
    requires |src| == |used|
  {
    if src == [] then 0
    else
      var n := |src| - 1;
      Used(src[..n], used[..n], r) + (if used[n] && RowEqual(src[n], r) then 1 else 0)
  }

  ghost predicate Matching(src: seq<Row>, used: seq<bool>, done: seq<Row>) {
    |used| == |src| && forall r :: Used(src, used, r) == Min(Count(done, r), Count(src, r))
  }

  lemma {:induction false} UsedNone(src: seq<Row>, used: seq<bool>, r: Row)
    requires |src| == |used| && forall j :: 0 <= j < |used| ==> !used[j]
    ensures Used(src, used, r) == 0
  {
    hide RowEqual;
    if src != [] {
      UsedNone(src[..|src| - 1], used[..|src| - 1], r);
    }
  }

  lemma {:induction false} UsedOneMore(src: seq<Row>, used: seq<bool>, j: nat, r: Row)
    requires |src| == |used| && j < |src| && !used[j]
    ensures Used(src, used[j := true], r) == Used(src, used, r) + (if RowEqual(src[j], r) then 1 else 0)
  {
    hide RowEqual;
    var n := |src| - 1;
    if j < n {
      UsedOneMore(src[..n], used[..n], j, r);
      assert used[j := true][..n] == used[..n][j := true];
    } else {
      assert used[j := true][..n] == used[..n];
    }
  }

  /** Some equal row is unused exactly when fewer are used than there are. */
  lemma {:induction false} UnusedLeft(src: seq<Row>, used: seq<bool>, r: Row)
    requires |src| == |used|
    ensures Used(src, used, r) <= Count(src, r)
    ensures Used(src, used, r) < Count(src, r)
       <==> exists j :: 0 <= j < |src| && !used[j] && RowEqual(r, src[j])
  {
    hide RowEqual;
    if src != [] {
      var n := |src| - 1;
      UnusedLeft(src[..n], used[..n], r);
      RowEqualSymmetric(src[n], r);
      if Used(src[..n], used[..n], r) < Count(src[..n], r) {
        var j :| 0 <= j < n && !used[..n][j] && RowEqual(r, src[..n][j]);
        assert !used[j] && RowEqual(r, src[j]);
      } else if j :| 0 <= j < |src| && !used[j] && RowEqual(r, src[j]) {
        assert j < n ==> !used[..n][j] && RowEqual(r, src[..n][j]);
      }
    }
  }

  lemma MatchingStep(src: seq<Row>, used: seq<bool>, done: seq<Row>, row: Row, j: nat)
    requires Matching(src, used, done)
    requires j < |src| && !used[j] && RowEqual(row, src[j])
    ensures Matching(src, used[j := true], done + [row])
  {
    hide RowEqual, Used;
    UnusedLeft(src, used, row);
    forall r
      ensures Used(src, used[j := true], r) == Min(Count(done + [row], r), Count(src, r))
    {
      UsedOneMore(src, used, j, r);
      assert (done + [row])[..|done|] == done;
      RowEqualSymmetric(row, src[j]);
      if RowEqual(row, r) {
        RowEqualTransitive(src[j], row, r);
        CountRespects(done, row, r);
        CountRespects(src, row, r);
        assert Used(src, used, row) == Min(Count(done, row), Count(src, row));
      } else if RowEqual(src[j], r) {
        RowEqualTransitive(row, src[j], r);
      }
    }
  }

  lemma MatchingSkip(src: seq<Row>, used: seq<bool>, done: seq<Row>, row: Row)
    requires Matching(src, used, done)
    requires forall j :: 0 <= j < |src| && !used[j] ==> !RowEqual(row, src[j])
    ensures Matching(src, used, done + [row])
  {
    hide RowEqual, Used;
    UnusedLeft(src, used, row);
    forall r
      ensures Used(src, used, r) == Min(Count(done + [row], r), Count(src, r))
    {
      assert (done + [row])[..|done|] == done;
      if RowEqual(row, r) {
        CountRespects(done, row, r);
        CountRespects(src, row, r);
        assert Used(src, used, row) == Min(Count(done, row), Count(src, row));
      }
    }
  }

  /** A row finds an unused equal partner exactly when it survives INTERSECT ALL. */
  lemma FoundIffSurvives(src: seq<Row>, used: seq<bool>, done: seq<Row>, row: Row)
    requires Matching(src, used, done)
    ensures (exists j :: 0 <= j < |src| && !used[j] && RowEqual(row, src[j]))
       <==> Survives(Matched, done, row, src)
  {
    UnusedLeft(src, used, row);
    assert Used(src, used, row) == Min(Count(done, row), Count(src, row));
  }

  lemma NoSurvivors(k: Keep, src: seq<Row>)
    ensures Survivors(k, [], src) == []
  {
  }

  lemma SurvivorsNext(k: Keep, rows: seq<Row>, i: nat, src: seq<Row>)
    requires i < |rows|
    ensures Survivors(k, rows[..i + 1], src)
         == Survivors(k, rows[..i], src) + (if Survives(k, rows[..i], rows[i], src) then [rows[i]] else [])
  {
    hide Survives;
    assert rows[..i + 1][..i] == rows[..i];
  }

  // ---------------------------------------------------------------- the operators in place

  class RowSet {
    var rows: array<Row>
    var count: nat

    ghost predicate Valid()
      reads this
    {
      count <= rows.Length
    }

    ghost function Contents(): seq<Row>
      reads this, rows
      requires Valid()
    {
      rows[..count]
    }

    constructor (contents: seq<Row>)
      ensures Valid() && fresh(rows) && Contents() == contents
    {
      rows := new Row[|contents|](i requires 0 <= i < |contents| => contents[i]);
      count := |contents|;
    }

    /** The first row of `src`, passing over used ones, that equals `row`. */
    method FindMatch(row: Row, src: RowSet, used: array?<bool>) returns (found: Option<nat>)
      requires src.Valid()
      requires used != null ==> used.Length == src.count
      ensures match found
              case Some(j) =>
                j < src.count && RowEqual(row, src.rows[j]) && (used == null || !used[j])
              case None =>
                forall j :: 0 <= j < src.count ==> (used != null && used[j]) || !RowEqual(row, src.rows[j])
    {
      var j := 0;
      while j < src.count
        invariant 0 <= j <= src.count
        invariant forall i :: 0 <= i < j ==> (used != null && used[i]) || !RowEqual(row, src.rows[i])
      {
        if used != null && used[j] {
          j := j + 1;
          continue;
        }
        if RowEqual(row, src.rows[j]) {
          return Some(j);
        }
        j := j + 1;
      }
      return None;
    }

    /** sql.c `sql__dedupe_rows`. */
    method Dedupe()
      requires Valid()
      modifies this`count, rows
      ensures Valid() && Contents() == Distinct(old(Contents()))
    {
      hide RowEqual, Survives;
      ghost var before := rows[..];
      var kept, i := 0, 0;
      while i < count
        invariant 0 <= kept <= i <= count == old(count) <= rows.Length
        invariant forall l :: i <= l < rows.Length ==> rows[l] == before[l]
        invariant rows[..kept] == Survivors(First, before[..i], [])
      {
        var dup, j := false, 0;
        while j < kept
          invariant 0 <= j <= kept
          invariant forall l :: 0 <= l < j ==> !RowEqual(rows[i], rows[l])
        {
          if RowEqual(rows[i], rows[j]) {
            dup := true;
            break;
          }
          j := j + 1;
        }
        DuplicateIffKept(before[..i], before[i], rows[..kept]);
        SurvivorsNext(First, before, i, []);
        ghost var was := rows[..kept];
        if !dup {
          assert Survives(First, before[..i], before[i], []);
          if kept != i {
            rows[kept] := rows[i];
          }
          kept := kept + 1;
        } else {
          assert RowEqual(rows[i], rows[..kept][j]);
        }
        i := i + 1;
      }
      assert before[..old(count)] == old(Contents());
      count := kept;
    }

    /** The loop INTERSECT and EXCEPT share: keep the rows that find a partner, or those that do not. */
    method Compact(src: RowSet, keepAll: bool, keepFound: bool)
      requires Valid() && src.Valid() && src != this && src.rows != rows
      modifies this`count, rows
      ensures Valid()
      ensures Contents() == Survivors(Rule(keepAll, keepFound), old(Contents()), src.Contents())
    {
      hide RowEqual, Survives, Survivors, Matching, Used, Count, Rule;
      ghost var k := Rule(keepAll, keepFound);
      ghost var before, other := rows[..], src.Contents();
      var used: array?<bool> := null;
      if keepAll && src.count > 0 {
        used := new bool[src.count](_ => false);
        NoneUsed(other, used[..]);
      }
      NoSurvivors(k, other);
      var kept, i := 0, 0;
      while i < count
        invariant 0 <= kept <= i <= count == old(count) <= rows.Length
        invariant other == src.Contents()
        invariant used != null <==> keepAll && src.count > 0
        invariant used != null ==> fresh(used) && used.Length == src.count
        invariant used != null ==> Matching(other, used[..], before[..i])
        invariant forall l :: i <= l < rows.Length ==> rows[l] == before[l]
        invariant rows[..kept] == Survivors(k, before[..i], other)
      {
        var found := FindMatch(rows[i], src, used);
        ghost var flags := if used != null then used[..] else [];
        Decision(other, used != null, flags, before[..i], before[i], found, keepAll, keepFound);
        SurvivorsNext(k, before, i, other);
        assert before[..i + 1] == before[..i] + [before[i]];
        if found.Some? && used != null {
          used[found.value] := true;
          assert used[..] == flags[found.value := true];
        }
        if found.Some? == keepFound {
          if kept != i {
            rows[kept] := rows[i];
          }
          kept := kept + 1;
        }
        i := i + 1;
      }
      assert before[..old(count)] == old(Contents());
      count := kept;
    }

    /** sql.c `sql__intersect_rows`. */
    method Intersect(src: RowSet, keepAll: bool)
      requires Valid() && src.Valid() && src != this && src.rows != rows
      modifies this`count, rows
      ensures Valid() && Contents() == Intersection(old(Contents()), src.Contents(), keepAll)
    {
      Compact(src, keepAll, true);
      if !keepAll {
        Dedupe();
      }
    }

    /** sql.c `sql__except_rows`. */
    method Except(src: RowSet, keepAll: bool)
      requires Valid() && src.Valid() && src != this && src.rows != rows
      modifies this`count, rows
      ensures Valid() && Contents() == Difference(old(Contents()), src.Contents(), keepAll)
    {
      Compact(src, keepAll, false);
      if !keepAll {
        Dedupe();
      }
    }

    /** sql.c `sql__append_rows`. */
    method Append(src: RowSet)
      requires Valid() && src.Valid()
      modifies this
      ensures Valid() && Contents() == old(Contents()) + old(src.Contents())
      ensures rows == old(rows) || fresh(rows)
    {
      if src.count == 0 {
        return;
      }
      var n, m := count, src.count;
      var was, more := rows, src.rows;
      rows := new Row[n + m](i requires 0 <= i < n + m reads was, more =>
        if i < n && i < was.Length then was[i] else if 0 <= i - n < more.Length then more[i - n] else []);
      count := n + m;
    }
  }

  function Rule(keepAll: bool, keepFound: bool): Keep {
    if keepAll then (if keepFound then Matched else Unmatched) else if keepFound then Present else Absent
  }

  lemma NoneUsed(src: seq<Row>, used: seq<bool>)
    requires |src| == |used| && forall j :: 0 <= j < |used| ==> !used[j]
    ensures Matching(src, used, [])
  {
    forall r
      ensures Used(src, used, r) == 0
    {
      UsedNone(src, used, r);
    }
  }

  predicate Finds(src: seq<Row>, tracked: bool, used: seq<bool>, row: Row, found: Option<nat>)
    requires tracked ==> |used| == |src|
  {
    match found
    case Some(j) => j < |src| && RowEqual(row, src[j]) && (!tracked || !used[j])
    case None => forall j :: 0 <= j < |src| ==> (tracked && used[j]) || !RowEqual(row, src[j])
  }

  /** What finding, or not finding, a partner says about a row. */
  lemma Decision(src: seq<Row>, tracked: bool, used: seq<bool>, done: seq<Row>, row: Row, found: Option<nat>,
                 keepAll: bool, keepFound: bool)
    requires tracked <==> keepAll && src != []
    requires tracked ==> Matching(src, used, done)
    requires Finds(src, tracked, used, row, found)
    ensures Survives(Rule(keepAll, keepFound), done, row, src) <==> found.Some? == keepFound
    ensures tracked ==> Matching(src, if found.Some? then used[found.value := true] else used, done + [row])
  {
    hide RowEqual;
    if tracked {
      FoundIffSurvives(src, used, done, row);
      if found.Some? {
        MatchingStep(src, used, done, row, found.value);
      } else {
        MatchingSkip(src, used, done, row);
      }
    } else {
      CountPositive(src, row);
      if found.Some? {
        RowEqualSymmetric(row, src[found.value]);
      }
      if j :| 0 <= j < |src| && RowEqual(src[j], row) {
        RowEqualSymmetric(row, src[j]);
      }
    }
  }

  /** Comparing with the kept rows only is enough: an earlier equal row was kept or equals one that was. */
  lemma DuplicateIffKept(before: seq<Row>, row: Row, kept: seq<Row>)
    requires kept == Survivors(First, before, [])
    ensures Survives(First, before, row, []) <==> forall j :: 0 <= j < |kept| ==> !RowEqual(row, kept[j])
  {
    hide RowEqual;
    SurvivorCount(First, before, [], row);
    CountPositive(kept, row);
    forall j | 0 <= j < |kept|
      ensures RowEqual(row, kept[j]) <==> RowEqual(kept[j], row)
    {
      RowEqualSymmetric(row, kept[j]);
    }
  }

  // ---------------------------------------------------------------- a whole statement

  datatype SetOp = Union | Intersect | Except

  /** `Overrun`: renaming would read a column name beyond the last one of the row it copies the names from. The
      source's behaviour is undefined there and the model stops. */
  datatype Outcome = Ok(rows: seq<Row>) | DifferentWidths | Overrun

  /** How many of the rows hold the values of `r`, whatever their columns are called. */
  function ValueCount(rows: seq<Row>, r: Row): nat {
    if rows == [] then 0
    else ValueCount(rows[..|rows| - 1], r) + (if SameValues(rows[|rows| - 1], r) then 1 else 0)
  }

  function Combined(op: SetOp, all: bool, n: nat, m: nat): nat {
    match op
    case Union => if all then n + m else Min(n + m, 1)
    case Intersect => if all then Min(n, m) else if n > 0 && m > 0 then 1 else 0
    case Except => if all then Monus(n, m) else if n > 0 && m == 0 then 1 else 0
  }

  function Applied(op: SetOp, all: bool, acc: seq<Row>, next: seq<Row>): seq<Row> {
    match op
    case Union => if all then acc + next else Distinct(acc + next)
    case Intersect => Intersection(acc, next, all)
    case Except => Difference(acc, next, all)
  }

  /** The width of the first arm with rows; -1 when none has any. */
  function Width(arms: seq<seq<Row>>): int {
    if arms == [] then -1
    else if arms[0] != [] then |arms[0][0]|
    else Width(arms[1..])
  }

  predicate WidthsAgree(arms: seq<seq<Row>>) {
    forall i :: 0 <= i < |arms| && arms[i] != [] ==> |arms[i][0]| == Width(arms)
  }

  predicate AllLike(rows: seq<Row>, shape: Row) {
    forall i :: 0 <= i < |rows| ==> SameShape(rows[i], shape)
  }

  /** All rows have the same columns. */
  predicate Rectangular(rows: seq<Row>) {
    rows == [] || AllLike(rows, rows[0])
  }

  /** The row's columns are the first ones of this list. A projection drops a column that a row does not have, so
      one SELECT can give rows of different widths. */
  predicate Begins(row: Row, shape: Row) {
    |row| <= |shape| && forall i :: 0 <= i < |row| ==> row[i].name == shape[i].name
  }

  predicate AllBegin(rows: seq<Row>, shape: Row) {
    forall i :: 0 <= i < |rows| ==> Begins(rows[i], shape)
  }

  /** Rows that lack only trailing columns of one list. */
  ghost predicate Tapered(rows: seq<Row>) {
    exists shape :: AllBegin(rows, shape)
  }

  predicate NoneWider(rows: seq<Row>, n: int) {
    forall i :: 0 <= i < |rows| ==> |rows[i]| <= n
  }

  function Renamed(row: Row, like: Row): (out: Row)
    requires |row| <= |like|
    ensures Begins(out, like) && |out| == |row| && (forall i :: 0 <= i < |row| ==> out[i].value == row[i].value)
  {
    seq(|row|, i requires 0 <= i < |row| => Field(like[i].name, row[i].value))
  }

  function RenamedRows(rows: seq<Row>, like: Row): (out: seq<Row>)
    requires NoneWider(rows, |like|)
    ensures |out| == |rows| && AllBegin(out, like)
  {
    seq(|rows|, i requires 0 <= i < |rows| => Renamed(rows[i], like))
  }

  lemma {:induction false} CountIsValueCount(rows: seq<Row>, shape: Row, r: Row)
    requires AllBegin(rows, shape)
    ensures |r| <= |shape| ==> Count(rows, Renamed(r, shape)) == ValueCount(rows, r)
    ensures |r| > |shape| ==> ValueCount(rows, r) == 0
  {
    if rows != [] {
      CountIsValueCount(rows[..|rows| - 1], shape, r);
      assert Begins(rows[|rows| - 1], shape);
    }
  }

  lemma {:induction false} SurvivorsBegin(k: Keep, rows: seq<Row>, src: seq<Row>, shape: Row)
    requires AllBegin(rows, shape)
    ensures AllBegin(Survivors(k, rows, src), shape)
  {
    hide Survives, Begins;
    if rows != [] {
      SurvivorsBegin(k, rows[..|rows| - 1], src, shape);
    }
  }

  lemma AppliedBegin(op: SetOp, all: bool, acc: seq<Row>, next: seq<Row>, shape: Row)
    requires AllBegin(acc, shape) && AllBegin(next, shape)
    ensures AllBegin(Applied(op, all, acc, next), shape)
  {
    hide Survivors, Begins;
    match op
    case Union =>
      SurvivorsBegin(First, acc + next, [], shape);
    case Intersect =>
      SurvivorsBegin(Matched, acc, next, shape);
      SurvivorsBegin(Present, acc, next, shape);
      SurvivorsBegin(First, Survivors(Present, acc, next), [], shape);
    case Except =>
      SurvivorsBegin(Unmatched, acc, next, shape);
      SurvivorsBegin(Absent, acc, next, shape);
      SurvivorsBegin(First, Survivors(Absent, acc, next), [], shape);
  }

  lemma AppliedCount(op: SetOp, all: bool, acc: seq<Row>, next: seq<Row>, r: Row)
    ensures Count(Applied(op, all, acc, next), r) == Combined(op, all, Count(acc, r), Count(next, r))
  {
    hide RowEqual, Count, Survivors;
    match op
    case Union =>
      CountAppend(acc, next, r);
      SurvivorCount(First, acc + next, [], r);
    case Intersect =>
      IntersectionCount(acc, next, all, r);
    case Except =>
      DifferenceCount(acc, next, all, r);
  }

  lemma AppliedValueCount(op: SetOp, all: bool, acc: seq<Row>, next: seq<Row>, shape: Row, r: Row)
    requires AllBegin(acc, shape) && AllBegin(next, shape)
    ensures ValueCount(Applied(op, all, acc, next), r)
         == Combined(op, all, ValueCount(acc, r), ValueCount(next, r))
  {
    hide RowEqual, Count, ValueCount, Applied, AllBegin, Renamed;
    AppliedBegin(op, all, acc, next, shape);
    CountIsValueCount(acc, shape, r);
    CountIsValueCount(next, shape, r);
    CountIsValueCount(Applied(op, all, acc, next), shape, r);
    if |r| <= |shape| {
      AppliedCount(op, all, acc, next, Renamed(r, shape));
    }
  }

  lemma {:induction false} RenamedValueCount(rows: seq<Row>, named: seq<Row>, r: Row)
    requires |rows| == |named|
    requires forall i :: 0 <= i < |rows| ==> |rows[i]| == |named[i]| && SameCells(rows[i], named[i])
    ensures ValueCount(named, r) == ValueCount(rows, r)
  {
    if rows != [] {
      RenamedValueCount(rows[..|rows| - 1], named[..|rows| - 1], r);
      assert SameCells(rows[|rows| - 1], named[|rows| - 1]);
    }
  }

  predicate SameCells(a: Row, b: Row) {
    |a| == |b| && forall i :: 0 <= i < |a| ==> a[i].value == b[i].value
  }

  /** How often the values of `r` are in the result of a chain of arms. */
  function Total(op: SetOp, all: bool, arms: seq<seq<Row>>, r: Row): nat
    requires arms != []
  {
    if |arms| == 1 then ValueCount(arms[0], r)
    else Combined(op, all, Total(op, all, arms[..|arms| - 1], r), ValueCount(arms[|arms| - 1], r))
  }

  function Sum(arms: seq<seq<Row>>, r: Row): nat {
    if arms == [] then 0 else Sum(arms[..|arms| - 1], r) + ValueCount(arms[|arms| - 1], r)
  }

  /** What a chain comes to: UNION adds the arms up, INTERSECT ALL is the least of them, EXCEPT ALL takes the
    later arms off the first; without ALL a row is there once or not at all. */
  lemma {:induction false} ChainMeaning(op: SetOp, all: bool, arms: seq<seq<Row>>, r: Row)
    requires |arms| >= 2
    ensures var total := Total(op, all, arms, r);
            match op
            case Union => total == if all then Sum(arms, r) else Min(Sum(arms, r), 1)
            case Intersect =>
              && (all ==> forall i :: 0 <= i < |arms| ==> total <= ValueCount(arms[i], r))
              && (all ==> exists i :: 0 <= i < |arms| && total == ValueCount(arms[i], r))
              && (!all ==> total <= 1)
              && (!all ==> (total == 1 <==> forall i :: 0 <= i < |arms| ==> ValueCount(arms[i], r) > 0))
            case Except =>
              && Sum(arms, r) >= ValueCount(arms[0], r)
              && (all ==> total == Monus(ValueCount(arms[0], r), Sum(arms, r) - ValueCount(arms[0], r)))
              && (!all ==> total == if ValueCount(arms[0], r) > 0 && Sum(arms, r) == ValueCount(arms[0], r)
                                    then 1 else 0)
  {
    hide ValueCount;
    var front, last := arms[..|arms| - 1], arms[|arms| - 1];
    assert Sum(arms, r) == Sum(front, r) + ValueCount(last, r);
    if |arms| == 2 {
      assert front[..0] == [];
      assert Sum(front, r) == Sum([], r) + ValueCount(arms[0], r);
      assert Total(op, all, front, r) == ValueCount(arms[0], r);
      assert arms[1] == last;
    } else {
      ChainMeaning(op, all, front, r);
      assert forall i :: 0 <= i < |front| ==> front[i] == arms[i];
      if op.Intersect? && all {
        var i :| 0 <= i < |front| && Total(op, all, front, r) == ValueCount(front[i], r);
        assert Total(op, all, arms, r) == ValueCount(arms[i], r)
            || Total(op, all, arms, r) == ValueCount(arms[|arms| - 1], r);
      }
    }
  }

  lemma WidthNext(arms: seq<seq<Row>>, next: seq<Row>)
    ensures Width(arms + [next])
         == if Width(arms) == -1 then (if next == [] then -1 else |next[0]|) else Width(arms)
    decreases arms
  {
    if arms == [] {
      assert ([next])[1..] == [];
    } else {
      assert (arms + [next])[1..] == arms[1..] + [next];
      WidthNext(arms[1..], next);
    }
  }

  lemma WidthsAgreeNext(arms: seq<seq<Row>>, next: seq<Row>)
    ensures WidthsAgree(arms + [next])
       <==> WidthsAgree(arms) && (next == [] || Width(arms) == -1 || |next[0]| == Width(arms))
  {
    WidthNext(arms, next);
    var more := arms + [next];
    assert forall i :: 0 <= i < |arms| ==> more[i] == arms[i];
    assert more[|arms|] == next;
    if Width(arms) == -1 {
      NoRows(arms);
    }
  }

  lemma {:induction false} NoRows(arms: seq<seq<Row>>)
    requires Width(arms) == -1
    ensures forall i :: 0 <= i < |arms| ==> arms[i] == []
  {
    if arms != [] {
      NoRows(arms[1..]);
      assert forall i :: 0 < i < |arms| ==> arms[i] == arms[1..][i - 1];
    }
  }

  /** sql.c `sql__rename_rows_like`, on rows for which the template has names enough. */
  method RenameLike(rs: RowSet, like: Row)
    requires rs.Valid() && NoneWider(rs.Contents(), |like|)
    modifies rs.rows
    ensures rs.Valid() && rs.Contents() == RenamedRows(old(rs.Contents()), like)
  {
    var i := 0;
    while i < rs.count
      invariant 0 <= i <= rs.count
      invariant forall j :: i <= j < rs.count ==> rs.rows[j] == old(rs.rows[j])
      invariant forall j :: 0 <= j < i ==> |old(rs.rows[j])| <= |like| && rs.rows[j] == Renamed(old(rs.rows[j]), like)
    {
      assert old(rs.Contents())[i] == rs.rows[i];
      rs.rows[i] := Renamed(rs.rows[i], like);
      i := i + 1;
    }
  }

  method ApplyOp(op: SetOp, all: bool, acc: RowSet, next: RowSet)
    requires acc.Valid() && next.Valid() && acc != next && acc.rows != next.rows
    modifies acc, acc.rows
    ensures acc.Valid() && (acc.rows == old(acc.rows) || fresh(acc.rows))
    ensures acc.Contents() == Applied(op, all, old(acc.Contents()), old(next.Contents()))
  {
    hide Survivors;
    match op
    case Union =>
      acc.Append(next);
      if !all {
        acc.Dedupe();
      }
    case Intersect =>
      acc.Intersect(next, all);
    case Except =>
      acc.Except(next, all);
  }

  /** One more arm: refused when its first row has another width, renamed after the accumulated rows when there
      are any. */
  function ChainNext(op: SetOp, all: bool, acc: seq<Row>, width: int, next: seq<Row>): Outcome {
    if next != [] && width != -1 && |next[0]| != width then DifferentWidths
    else if next == [] || width == -1 || acc == [] then Ok(Applied(op, all, acc, next))
    else if !NoneWider(next, |acc[0]|) then Overrun
    else Ok(Applied(op, all, acc, RenamedRows(next, acc[0])))
  }

  function Chain(op: SetOp, all: bool, arms: seq<seq<Row>>): Outcome
    requires arms != []
  {
    if |arms| == 1 then Ok(arms[0])
    else
      var front := arms[..|arms| - 1];
      match Chain(op, all, front)
      case Ok(acc) => ChainNext(op, all, acc, Width(front), arms[|arms| - 1])
      case failed => failed
  }

  /** The rows of the first arm that has any. */
  function FirstRows(arms: seq<seq<Row>>): (rows: seq<Row>)
    ensures if Width(arms) == -1 then rows == [] else rows != [] && |rows[0]| == Width(arms)
  {
    if arms == [] then [] else if arms[0] != [] then arms[0] else FirstRows(arms[1..])
  }

  lemma {:induction false} FirstRowsNext(arms: seq<seq<Row>>, next: seq<Row>)
    ensures FirstRows(arms + [next]) == if Width(arms) == -1 then next else FirstRows(arms)
    decreases arms
  {
    if arms == [] {
      assert [next][1..] == [];
    } else {
      assert (arms + [next])[1..] == arms[1..] + [next];
      FirstRowsNext(arms[1..], next);
    }
  }

  lemma {:induction false} WidthsOfOne(arm: seq<Row>)
    ensures WidthsAgree([arm]) && FirstRows([arm]) == arm && Width([arm]) == if arm == [] then -1 else |arm[0]|
  {
    assert [arm][1..] == [];
  }

  /** Which arms are refused is a matter of their first rows. */
  lemma {:induction false} ChainWidths(op: SetOp, all: bool, arms: seq<seq<Row>>)
    requires arms != []
    ensures Chain(op, all, arms).Ok? ==> WidthsAgree(arms)
    ensures Chain(op, all, arms).DifferentWidths? ==> !WidthsAgree(arms)
    ensures Width(arms) == -1 ==> Chain(op, all, arms) == Ok([])
    ensures op.Union? && Width(arms) != -1 && Chain(op, all, arms).Ok? ==>
              Chain(op, all, arms).rows != [] && Chain(op, all, arms).rows[0] == FirstRows(arms)[0]
  {
    hide Applied, NoneWider;
    var front, last := arms[..|arms| - 1], arms[|arms| - 1];
    assert arms == front + [last];
    if |arms| == 1 {
      assert arms == [arms[0]];
      WidthsOfOne(arms[0]);
    } else {
      ChainWidths(op, all, front);
      WidthNext(front, last);
      WidthsAgreeNext(front, last);
      FirstRowsNext(front, last);
      FirstStays(op, all, last);
      if op.Union? && Chain(op, all, front).Ok? {
        var acc := Chain(op, all, front).rows;
        if acc + last != [] {
          UnionKeepsFirst(all, acc, last);
        }
        if acc != [] && NoneWider(last, |acc[0]|) {
          UnionKeepsFirst(all, acc, RenamedRows(last, acc[0]));
        }
      }
    }
  }

  lemma FirstStays(op: SetOp, all: bool, next: seq<Row>)
    ensures next == [] ==> Applied(op, all, [], next) == []
  {
  }

  /** The accumulated rows hold each row's values as often as the operators say, whenever the rows of the first
      arm lack only trailing columns. */
  lemma {:induction false} ChainCounts(op: SetOp, all: bool, arms: seq<seq<Row>>, shape: Row)
    requires arms != [] && Chain(op, all, arms).Ok? && AllBegin(FirstRows(arms), shape)
    ensures AllBegin(Chain(op, all, arms).rows, shape)
    ensures forall r :: ValueCount(Chain(op, all, arms).rows, r) == Total(op, all, arms, r)
  {
    hide Applied, NoneWider, ValueCount, Begins;
    var front, last := arms[..|arms| - 1], arms[|arms| - 1];
    assert arms == front + [last];
    if |arms| == 1 {
      WidthsOfOne(arms[0]);
      assert arms == [arms[0]];
    } else {
      FirstRowsNext(front, last);
      ChainCounts(op, all, front, shape);
      ChainWidths(op, all, front);
      var acc := Chain(op, all, front).rows;
      ChainStep(op, all, acc, Width(front), last, shape);
    }
  }

  lemma ChainStep(op: SetOp, all: bool, acc: seq<Row>, width: int, next: seq<Row>, shape: Row)
    requires ChainNext(op, all, acc, width, next).Ok? && AllBegin(acc, shape)
    requires width == -1 ==> acc == [] && AllBegin(next, shape)
    requires op.Union? && width != -1 ==> acc != []
    ensures var out := ChainNext(op, all, acc, width, next).rows;
      && AllBegin(out, shape)
      && forall r :: ValueCount(out, r) == Combined(op, all, ValueCount(acc, r), ValueCount(next, r))
  {
    hide Applied, ValueCount;
    var out := ChainNext(op, all, acc, width, next).rows;
    if acc == [] && !op.Union? {
      NothingLeft(op, all, next);
    } else {
      var named := if next == [] || width == -1 then next else RenamedRows(next, acc[0]);
      assert AllBegin(named, shape);
      AppliedBegin(op, all, acc, named, shape);
      forall r
        ensures ValueCount(out, r) == Combined(op, all, ValueCount(acc, r), ValueCount(next, r))
      {
        RenamedValueCount(next, named, r);
        AppliedValueCount(op, all, acc, named, shape, r);
      }
    }
  }

  /** Once an arm has given rows, no later one gives a row that is wider than the first. */
  predicate LaterFit(arms: seq<seq<Row>>) {
    forall n :: 0 <= n < |arms| && Width(arms[..n]) != -1 ==> NoneWider(arms[n], Width(arms[..n]))
  }

  lemma {:induction false} LaterFitNext(front: seq<seq<Row>>, last: seq<Row>)
    ensures LaterFit(front + [last]) <==>
      LaterFit(front) && (Width(front) != -1 ==> NoneWider(last, Width(front)))
  {
    hide NoneWider, Width;
    var arms := front + [last];
    assert arms[..|front|] == front && arms[|front|] == last;
    assert forall n :: 0 <= n < |front| ==> arms[..n] == front[..n] && arms[n] == front[n];
  }

  /** A UNION runs through exactly when the first rows agree in width and no later row is wider. */
  lemma {:induction false} UnionRuns(all: bool, arms: seq<seq<Row>>)
    requires arms != []
    ensures Chain(Union, all, arms).Ok? <==> WidthsAgree(arms) && LaterFit(arms)
  {
    hide Applied, NoneWider;
    var front, last := arms[..|arms| - 1], arms[|arms| - 1];
    assert arms == front + [last];
    LaterFitNext(front, last);
    if |arms| == 1 {
      WidthsOfOne(arms[0]);
      assert arms == [arms[0]] && front == [];
      assert LaterFit([]);
    } else {
      UnionRuns(all, front);
      ChainWidths(Union, all, front);
      WidthsAgreeNext(front, last);
      FirstRowsNext(front, last);
      NothingWider(Width(front));
    }
  }

  lemma NothingWider(n: int)
    ensures n >= 0 ==> NoneWider([], n)
  {
  }

  /** INTERSECT and EXCEPT run through then too, when the first arm's rows are of one width. */
  lemma {:induction false} ChainRuns(op: SetOp, all: bool, arms: seq<seq<Row>>)
    requires arms != [] && !op.Union?
    requires forall i :: 0 <= i < |arms[0]| ==> |arms[0][i]| == |arms[0][0]|
    ensures WidthsAgree(arms) && LaterFit(arms) ==> Chain(op, all, arms).Ok?
    ensures Chain(op, all, arms).Ok? ==>
      forall r :: r in Chain(op, all, arms).rows ==> r in arms[0]
  {
    hide Applied, NoneWider, LaterFit, WidthsAgree, Width, FirstRows;
    var front, last := arms[..|arms| - 1], arms[|arms| - 1];
    assert arms == front + [last];
    LaterFitNext(front, last);
    if |arms| > 1 {
      ChainRuns(op, all, front);
      ChainWidths(op, all, front);
      WidthsAgreeNext(front, last);
      if Chain(op, all, front).Ok? {
        var acc := Chain(op, all, front).rows;
        FewerRows(op, all, acc, last);
        if acc != [] {
          assert acc[0] in arms[0] && arms[0] != [];
          WidthOfFirst(front);
          if NoneWider(last, |acc[0]|) {
            FewerRows(op, all, acc, RenamedRows(last, acc[0]));
          }
        }
      }
    }
  }

  lemma WidthOfFirst(arms: seq<seq<Row>>)
    ensures arms != [] && arms[0] != [] ==> Width(arms) == |arms[0][0]|
  {
  }

  lemma FewerRows(op: SetOp, all: bool, acc: seq<Row>, next: seq<Row>)
    requires !op.Union?
    ensures forall r :: r in Applied(op, all, acc, next) ==> r in acc
  {
    hide Survivors;
    SurvivorsAmong(Matched, acc, next);
    SurvivorsAmong(Present, acc, next);
    SurvivorsAmong(Unmatched, acc, next);
    SurvivorsAmong(Absent, acc, next);
    SurvivorsAmong(First, Survivors(Present, acc, next), []);
    SurvivorsAmong(First, Survivors(Absent, acc, next), []);
  }

  lemma {:induction false} SurvivorsAmong(k: Keep, rows: seq<Row>, src: seq<Row>)
    ensures forall r :: r in Survivors(k, rows, src) ==> r in rows
  {
    hide Survives;
    if rows != [] {
      SurvivorsAmong(k, rows[..|rows| - 1], src);
    }
  }

  /** Arms of one width each, and the same one, always run through. */
  lemma RectangularRuns(op: SetOp, all: bool, arms: seq<seq<Row>>)
    requires arms != [] && forall i :: 0 <= i < |arms| ==> Rectangular(arms[i])
    ensures Chain(op, all, arms).Ok? <==> WidthsAgree(arms)
    ensures Tapered(FirstRows(arms))
  {
    hide Applied;
    ChainWidths(op, all, arms);
    FirstRowsAmong(arms);
    if FirstRows(arms) != [] {
      assert AllBegin(FirstRows(arms), FirstRows(arms)[0]);
    } else {
      assert AllBegin([], []);
    }
    if WidthsAgree(arms) {
      forall n | 0 <= n < |arms| && Width(arms[..n]) != -1
        ensures NoneWider(arms[n], Width(arms[..n]))
      {
        WidthOfPrefix(arms, n);
      }
      if op.Union? {
        UnionRuns(all, arms);
      } else {
        ChainRuns(op, all, arms);
      }
    }
  }

  lemma {:induction false} FirstRowsAmong(arms: seq<seq<Row>>)
    ensures FirstRows(arms) != [] ==> FirstRows(arms) in arms
  {
    if arms != [] && arms[0] == [] {
      FirstRowsAmong(arms[1..]);
    }
  }

  lemma {:induction false} WidthOfPrefix(arms: seq<seq<Row>>, n: nat)
    requires n <= |arms| && Width(arms[..n]) != -1
    ensures Width(arms) == Width(arms[..n])
  {
    if n > 0 && arms[0] == [] {
      assert arms[..n][1..] == arms[1..][..n - 1];
      WidthOfPrefix(arms[1..], n - 1);
    }
  }

  /** A first row without column b, then an arm whose second row has it: there is no name for that column. */
  lemma WiderRowOverruns(all: bool)
    ensures var a, ab := [Field("a", Int(1))], [Field("a", Int(1)), Field("b", Int(2))];
      Chain(Union, all, [[a], [a, ab]]) == Overrun && WidthsAgree([[a], [a, ab]])
  {
    var a, ab := [Field("a", Int(1))], [Field("a", Int(1)), Field("b", Int(2))];
    var arms := [[a], [a, ab]];
    assert arms[..1] == [[a]];
    WidthsOfOne([a]);
    WidthsAgreeNext([[a]], [a, ab]);
    assert arms == [[a]] + [[a, ab]];
    assert !NoneWider([a, ab], 1) by {
      assert [a, ab][1] == ab;
    }
  }

  // ---------------------------------------------------------------- values under several names

  function NamesIn(row: Row): seq<string> {
    seq(|row|, i requires 0 <= i < |row| => row[i].name)
  }

  /** The lists of column names under which the values of `r` occur. */
  function NamesOf(rows: seq<Row>, r: Row): multiset<seq<string>> {
    if rows == [] then multiset{}
    else
      var last := rows[|rows| - 1];
      NamesOf(rows[..|rows| - 1], r) + (if SameValues(last, r) then multiset{NamesIn(last)} else multiset{})
  }

  lemma {:induction false} NamesCount(rows: seq<Row>, r: Row)
    ensures |NamesOf(rows, r)| == ValueCount(rows, r)
  {
    hide SameValues;
    if rows != [] {
      NamesCount(rows[..|rows| - 1], r);
    }
  }

  lemma SameValuesLaws(a: Row, b: Row, c: Row)
    ensures SameValues(a, b) ==> SameValues(b, a)
    ensures SameValues(a, b) && SameValues(b, c) ==> SameValues(a, c)
  {
  }

  lemma RowEqualByNames(a: Row, b: Row)
    ensures RowEqual(a, b) <==> SameValues(a, b) && NamesIn(a) == NamesIn(b)
  {
    if NamesIn(a) == NamesIn(b) {
      assert |NamesIn(a)| == |NamesIn(b)|;
      forall i | 0 <= i < |a|
        ensures a[i].name == b[i].name
      {
        assert NamesIn(a)[i] == NamesIn(b)[i];
      }
    }
  }

  /** A row with the values of `r` occurs as often as its names do. */
  lemma {:induction false} NamesOfRow(rows: seq<Row>, r: Row, x: Row)
    requires SameValues(x, r)
    ensures NamesOf(rows, r)[NamesIn(x)] == Count(rows, x)
  {
    hide SameValues, RowEqual, NamesIn;
    if rows != [] {
      var last := rows[|rows| - 1];
      NamesOfRow(rows[..|rows| - 1], r, x);
      RowEqualByNames(last, x);
      SameValuesLaws(last, r, x);
      SameValuesLaws(x, r, last);
      SameValuesLaws(last, x, r);
    }
  }

  /** The values of `r` under other names. */
  function Under(names: seq<string>, r: Row): (x: Row)
    requires |names| == |r|
    ensures NamesIn(x) == names
  {
    seq(|r|, i requires 0 <= i < |r| => Field(names[i], r[i].value))
  }

  lemma {:induction false} NamesOfAnything(rows: seq<Row>, r: Row, names: seq<string>)
    ensures NamesOf(rows, r)[names] ==
      if SameValues(r, r) && |names| == |r| then Count(rows, Under(names, r)) else 0
  {
    if SameValues(r, r) && |names| == |r| {
      NamesOfRow(rows, r, Under(names, r));
    } else {
      hide SameValues, NamesIn;
      if rows != [] {
        var last := rows[|rows| - 1];
        NamesOfAnything(rows[..|rows| - 1], r, names);
        SameValuesLaws(last, r, last);
        SameValuesLaws(r, last, r);
        if SameValues(last, r) {
          SameWidth(last, r);
        }
      }
    }
  }

  lemma SameWidth(a: Row, b: Row)
    requires SameValues(a, b)
    ensures |NamesIn(a)| == |b|
  {
  }

  /** On the names the operators are the multiset operators, or those of sets. */
  lemma NamesOfApplied(op: SetOp, all: bool, acc: seq<Row>, next: seq<Row>, r: Row, names: seq<string>)
    ensures NamesOf(Applied(op, all, acc, next), r)[names]
         == Combined(op, all, NamesOf(acc, r)[names], NamesOf(next, r)[names])
  {
    hide Applied, SameValues, Under, Count;
    NamesOfAnything(Applied(op, all, acc, next), r, names);
    NamesOfAnything(acc, r, names);
    NamesOfAnything(next, r, names);
    if SameValues(r, r) && |names| == |r| {
      AppliedCount(op, all, acc, next, Under(names, r));
    }
  }

  predicate OneName(m: multiset<seq<string>>) {
    forall a, b :: a in m && b in m ==> a == b
  }

  /** When the operators count values right although they compare names: UNION ALL always; UNION when the values
      occur under one list of names; INTERSECT when both operands have them under exactly one common list; EXCEPT
      when the first has them under one list or the second under every list the first does; and with ALL when the
      one operand has the values under each list at least as often as the other. */
  predicate CountsRight(op: SetOp, all: bool, a: multiset<seq<string>>, b: multiset<seq<string>>) {
    match op
    case Union => all || OneName(a + b)
    case Intersect =>
      if all then a <= b || b <= a else |a| > 0 && |b| > 0 ==> |a * b| > 0 && OneName(a * b)
    case Except =>
      if all then a <= b || b <= a else if |b| == 0 then OneName(a) else forall n :: n in a ==> n in b
  }

  lemma Smaller(c: multiset<seq<string>>, a: multiset<seq<string>>)
    requires c <= a
    ensures |c| <= |a| && (|c| == |a| ==> c == a)
  {
    assert a == c + (a - c);
  }

  lemma CommonAndRest(a: multiset<seq<string>>, b: multiset<seq<string>>)
    ensures |a * b| <= |a| && |a * b| <= |b|
    ensures |a - b| == |a| - |a * b|
    ensures |a * b| == Min(|a|, |b|) <==> a <= b || b <= a
  {
    Smaller(a * b, a);
    Smaller(a * b, b);
    assert a == (a - b) + (a * b);
    assert a <= b ==> a * b == a;
    assert b <= a ==> a * b == b;
  }

  /** A multiset in which nothing is twice has at most one element when all are the same. */
  lemma AtMostOnce(m: multiset<seq<string>>)
    requires forall n :: m[n] <= 1
    ensures |m| <= 1 <==> OneName(m)
    ensures |m| == 0 <==> forall n :: n !in m
  {
    if OneName(m) {
      if n :| n in m {
        assert m == multiset{n};
      }
    } else {
      var x, y :| x in m && y in m && x != y;
      Smaller(multiset{x, y}, m);
    }
    if |m| == 0 {
      assert m == multiset{};
    }
  }

  lemma UnionRightFor(a: multiset<seq<string>>, b: multiset<seq<string>>, m: multiset<seq<string>>)
    requires forall n :: m[n] == Min(a[n] + b[n], 1)
    ensures |m| == Min(|a| + |b|, 1) <==> OneName(a + b)
  {
    assert forall n :: n in m <==> n in a + b;
    AtMostOnce(m);
    SomeIn(a + b);
  }

  lemma IntersectRightFor(a: multiset<seq<string>>, b: multiset<seq<string>>, m: multiset<seq<string>>)
    requires forall n :: m[n] == if a[n] > 0 && b[n] > 0 then 1 else 0
    ensures (|m| == if |a| > 0 && |b| > 0 then 1 else 0) <==> (|a| > 0 && |b| > 0 ==> |a * b| > 0 && OneName(a * b))
  {
    assert forall n :: n in m <==> n in a * b;
    AtMostOnce(m);
    SomeIn(a * b);
    CommonAndRest(a, b);
  }

  lemma ExceptRightFor(a: multiset<seq<string>>, b: multiset<seq<string>>, m: multiset<seq<string>>)
    requires forall n :: m[n] == if a[n] > 0 && b[n] == 0 then 1 else 0
    ensures (|m| == if |a| > 0 && |b| == 0 then 1 else 0)
       <==> if |b| == 0 then OneName(a) else forall n :: n in a ==> n in b
  {
    assert forall n :: n in m <==> n in a && n !in b;
    AtMostOnce(m);
    SomeIn(a);
    SomeIn(b);
  }

  lemma CountsRightFor(op: SetOp, all: bool, a: multiset<seq<string>>, b: multiset<seq<string>>,
                       m: multiset<seq<string>>)
    requires forall n :: m[n] == Combined(op, all, a[n], b[n])
    ensures |m| == Combined(op, all, |a|, |b|) <==> CountsRight(op, all, a, b)
  {
    hide OneName;
    match op
    case Union =>
      if all {
        assert m == a + b;
      } else {
        UnionRightFor(a, b, m);
      }
    case Intersect =>
      if all {
        CommonAndRest(a, b);
        assert m == a * b;
      } else {
        IntersectRightFor(a, b, m);
      }
    case Except =>
      if all {
        CommonAndRest(a, b);
        assert m == a - b;
      } else {
        ExceptRightFor(a, b, m);
      }
  }

  lemma SomeIn(m: multiset<seq<string>>)
    ensures |m| > 0 <==> exists n :: n in m
  {
    if |m| > 0 {
      assert m != multiset{};
    }
  }

  lemma OperatorCountsAt(op: SetOp, all: bool, acc: seq<Row>, next: seq<Row>, r: Row)
    ensures ValueCount(Applied(op, all, acc, next), r) == Combined(op, all, ValueCount(acc, r), ValueCount(next, r))
       <==> CountsRight(op, all, NamesOf(acc, r), NamesOf(next, r))
  {
    hide Applied, ValueCount, NamesOf, CountsRight, Combined;
    NamesCount(Applied(op, all, acc, next), r);
    NamesCount(acc, r);
    NamesCount(next, r);
    forall names
      ensures NamesOf(Applied(op, all, acc, next), r)[names]
           == Combined(op, all, NamesOf(acc, r)[names], NamesOf(next, r)[names])
    {
      NamesOfApplied(op, all, acc, next, r, names);
    }
    CountsRightFor(op, all, NamesOf(acc, r), NamesOf(next, r), NamesOf(Applied(op, all, acc, next), r));
  }

  /** Each operator counts the values of its operands right exactly then. */
  lemma OperatorCounts(op: SetOp, all: bool, acc: seq<Row>, next: seq<Row>)
    ensures (forall r :: ValueCount(Applied(op, all, acc, next), r)
                      == Combined(op, all, ValueCount(acc, r), ValueCount(next, r)))
       <==> forall r :: CountsRight(op, all, NamesOf(acc, r), NamesOf(next, r))
  {
    hide Applied, ValueCount, NamesOf, CountsRight, Combined;
    if forall r :: CountsRight(op, all, NamesOf(acc, r), NamesOf(next, r)) {
      forall r
        ensures ValueCount(Applied(op, all, acc, next), r) == Combined(op, all, ValueCount(acc, r), ValueCount(next, r))
      {
        OperatorCountsAt(op, all, acc, next, r);
      }
    } else {
      var r :| !CountsRight(op, all, NamesOf(acc, r), NamesOf(next, r));
      OperatorCountsAt(op, all, acc, next, r);
    }
  }

  /** Rows with the same values have the same names. */
  predicate Alike(rows: seq<Row>) {
    forall i, j :: 0 <= i < |rows| && 0 <= j < |rows| && SameValues(rows[i], rows[j]) ==> SameShape(rows[i], rows[j])
  }

  lemma {:induction false} InNamesOf(rows: seq<Row>, r: Row, names: seq<string>)
    ensures names in NamesOf(rows, r) <==>
      exists i :: 0 <= i < |rows| && SameValues(rows[i], r) && NamesIn(rows[i]) == names
  {
    hide SameValues, NamesIn;
    if rows != [] {
      var n := |rows| - 1;
      InNamesOf(rows[..n], r, names);
      if i :| 0 <= i < |rows| && SameValues(rows[i], r) && NamesIn(rows[i]) == names {
        assert i < n ==> SameValues(rows[..n][i], r) && NamesIn(rows[..n][i]) == names;
      }
      if i :| 0 <= i < n && SameValues(rows[..n][i], r) && NamesIn(rows[..n][i]) == names {
        assert SameValues(rows[i], r) && NamesIn(rows[i]) == names;
      }
    }
  }

  lemma ShapeByNames(a: Row, b: Row)
    ensures SameShape(a, b) <==> NamesIn(a) == NamesIn(b)
  {
    if NamesIn(a) == NamesIn(b) {
      assert |NamesIn(a)| == |NamesIn(b)|;
      forall i | 0 <= i < |a|
        ensures a[i].name == b[i].name
      {
        assert NamesIn(a)[i] == NamesIn(b)[i];
      }
    }
  }

  lemma AlikeByNames(rows: seq<Row>)
    ensures Alike(rows) <==> forall r :: OneName(NamesOf(rows, r))
  {
    hide SameValues, SameShape, NamesIn, NamesOf;
    if Alike(rows) {
      forall r, a, b | a in NamesOf(rows, r) && b in NamesOf(rows, r)
        ensures a == b
      {
        InNamesOf(rows, r, a);
        InNamesOf(rows, r, b);
        var i :| 0 <= i < |rows| && SameValues(rows[i], r) && NamesIn(rows[i]) == a;
        var j :| 0 <= j < |rows| && SameValues(rows[j], r) && NamesIn(rows[j]) == b;
        SameValuesLaws(rows[j], r, rows[i]);
        SameValuesLaws(rows[i], r, rows[j]);
        ShapeByNames(rows[i], rows[j]);
      }
    } else {
      var i, j :| 0 <= i < |rows| && 0 <= j < |rows| && SameValues(rows[i], rows[j]) && !SameShape(rows[i], rows[j]);
      SameValuesLaws(rows[i], rows[j], rows[i]);
      SameValuesLaws(rows[j], rows[i], rows[j]);
      InNamesOf(rows, rows[j], NamesIn(rows[i]));
      InNamesOf(rows, rows[j], NamesIn(rows[j]));
      ShapeByNames(rows[i], rows[j]);
      assert !OneName(NamesOf(rows, rows[j]));
    }
  }

  // ---------------------------------------------------------------- UNION chains

  /** A row's values are in the result as often as the operators say. */
  predicate CountedAt(op: SetOp, all: bool, arms: seq<seq<Row>>, rows: seq<Row>, r: Row)
    requires arms != []
  {
    ValueCount(rows, r) == Total(op, all, arms, r)
  }

  ghost predicate CountedRight(op: SetOp, all: bool, arms: seq<seq<Row>>, rows: seq<Row>)
    requires arms != []
  {
    forall r :: CountedAt(op, all, arms, rows, r)
  }

  lemma {:induction false} ValueCountAppend(a: seq<Row>, b: seq<Row>, r: Row)
    ensures ValueCount(a + b, r) == ValueCount(a, r) + ValueCount(b, r)
  {
    hide SameValues;
    if b == [] {
      assert a + b == a;
    } else {
      assert (a + b)[..|a + b| - 1] == a + b[..|b| - 1];
      ValueCountAppend(a, b[..|b| - 1], r);
    }
  }

  /** UNION ALL counts values right whatever the arms look like. */
  lemma {:induction false} UnionAllCounts(arms: seq<seq<Row>>)
    requires arms != [] && Chain(Union, true, arms).Ok?
    ensures forall r :: ValueCount(Chain(Union, true, arms).rows, r) == Total(Union, true, arms, r)
  {
    hide NoneWider, ValueCount;
    var front, last := arms[..|arms| - 1], arms[|arms| - 1];
    if |arms| > 1 {
      UnionAllCounts(front);
      var acc := Chain(Union, true, front).rows;
      var named := if last == [] || Width(front) == -1 || acc == [] then last else RenamedRows(last, acc[0]);
      forall r
        ensures ValueCount(Chain(Union, true, arms).rows, r) == Total(Union, true, arms, r)
      {
        RenamedValueCount(last, named, r);
        ValueCountAppend(acc, named, r);
      }
    }
  }

  lemma {:induction false} DistinctIdempotent(rows: seq<Row>)
    ensures Distinct(Distinct(rows)) == Distinct(rows)
  {
    hide RowEqual, Count;
    if rows != [] {
      var front, last := rows[..|rows| - 1], rows[|rows| - 1];
      DistinctIdempotent(front);
      DistinctNext(front, last);
      DistinctNext(Distinct(front), last);
      SurvivorCount(First, front, [], last);
      assert front + [last] == rows;
    }
  }

  lemma DistinctNext(front: seq<Row>, last: Row)
    ensures Distinct(front + [last]) == if Count(front, last) == 0 then Distinct(front) + [last] else Distinct(front)
  {
    hide Count;
    assert (front + [last])[..|front|] == front;
  }

  /** Removing duplicates early changes nothing. */
  lemma {:induction false} DistinctTwice(a: seq<Row>, b: seq<Row>)
    ensures Distinct(Distinct(a) + b) == Distinct(a + b)
  {
    hide RowEqual, Count, Survivors;
    if b == [] {
      DistinctIdempotent(a);
      assert Distinct(a) + b == Distinct(a) && a + b == a;
    } else {
      var front, last := b[..|b| - 1], b[|b| - 1];
      DistinctTwice(a, front);
      assert Distinct(a) + b == (Distinct(a) + front) + [last] && a + b == (a + front) + [last];
      DistinctNext(Distinct(a) + front, last);
      DistinctNext(a + front, last);
      CountAppend(Distinct(a), front, last);
      CountAppend(a, front, last);
      SurvivorCount(First, a, [], last);
    }
  }

  /** A UNION is the UNION ALL without its duplicates. */
  lemma {:induction false} UnionIsDistinct(arms: seq<seq<Row>>)
    requires |arms| >= 2
    ensures Chain(Union, false, arms) ==
      match Chain(Union, true, arms)
      case Ok(rows) => Ok(Distinct(rows))
      case failed => failed
  {
    hide NoneWider, Survivors;
    var front, last := arms[..|arms| - 1], arms[|arms| - 1];
    if |arms| > 2 {
      UnionIsDistinct(front);
      if Chain(Union, true, front).Ok? {
        var rows := Chain(Union, true, front).rows;
        if rows != [] {
          DistinctKeepsFirst(rows);
          if NoneWider(last, |rows[0]|) {
            DistinctTwice(rows, RenamedRows(last, rows[0]));
          }
        } else {
          NothingLeft(Union, false, []);
        }
        DistinctTwice(rows, last);
      }
    }
  }

  /** A UNION counts values right exactly when, among the rows of all arms under their new names, those with the
      same values have the same names. */
  lemma UnionCountsExactly(arms: seq<seq<Row>>)
    requires |arms| >= 2 && Chain(Union, false, arms).Ok?
    ensures Chain(Union, true, arms).Ok?
    ensures CountedRight(Union, false, arms, Chain(Union, false, arms).rows) <==> Alike(Chain(Union, true, arms).rows)
  {
    hide Chain, Alike, ValueCount, Total, NamesOf;
    UnionIsDistinct(arms);
    AlikeByNames(Chain(Union, true, arms).rows);
    if forall r :: OneName(NamesOf(Chain(Union, true, arms).rows, r)) {
      forall r
        ensures CountedAt(Union, false, arms, Chain(Union, false, arms).rows, r)
      {
        UnionCountsAt(arms, r);
      }
    } else {
      var r :| !OneName(NamesOf(Chain(Union, true, arms).rows, r));
      UnionCountsAt(arms, r);
      assert !CountedAt(Union, false, arms, Chain(Union, false, arms).rows, r);
    }
  }

  lemma UnionCountsAt(arms: seq<seq<Row>>, r: Row)
    requires |arms| >= 2 && Chain(Union, false, arms).Ok? && Chain(Union, true, arms).Ok?
    ensures ValueCount(Chain(Union, false, arms).rows, r) == Total(Union, false, arms, r) <==>
      OneName(NamesOf(Chain(Union, true, arms).rows, r))
  {
    hide Chain, ValueCount, Total, Sum, Survivors, NamesOf, CountsRight;
    UnionIsDistinct(arms);
    UnionAllCounts(arms);
    var rows := Chain(Union, true, arms).rows;
    assert rows + [] == rows;
    OperatorCountsAt(Union, false, rows, [], r);
    ChainMeaning(Union, false, arms, r);
    ChainMeaning(Union, true, arms, r);
    NoneCounted(rows, r);
  }

  lemma NoneCounted(rows: seq<Row>, r: Row)
    ensures ValueCount([], r) == 0
    ensures CountsRight(Union, false, NamesOf(rows, r), NamesOf([], r)) <==> OneName(NamesOf(rows, r))
  {
    assert NamesOf(rows, r) + NamesOf([], r) == NamesOf(rows, r);
  }

  /** A first arm whose rows lack different columns: the values (1) are there twice although UNION keeps a row
      once. */
  lemma MixedNamesMiscount()
    ensures var a, b := [Field("a", Int(1))], [Field("b", Int(1))];
      && Chain(Union, false, [[a, b], []]) == Ok([a, b])
      && ValueCount([a, b], a) == 2 && Total(Union, false, [[a, b], []], a) == 1
  {
    var a, b := [Field("a", Int(1))], [Field("b", Int(1))];
    var arms := [[a, b], []];
    assert arms[..1] == [[a, b]];
    assert [a, b][..1] == [a];
    assert ValueCount([a], a) == 1 && ValueCount([a, b], a) == 2;
    assert !RowEqual(a, b) by {
      assert a[0].name == "a" && b[0].name == "b";
    }
    assert Count([a], b) == 0 && Count([], a) == 0;
    assert [a, b] + [] == [a, b];
    assert Distinct([a]) == [a] && Distinct([a, b]) == [a, b];
  }

  lemma NothingLeft(op: SetOp, all: bool, next: seq<Row>)
    requires !op.Union? || next == []
    ensures Applied(op, all, [], next) == []
    ensures forall n: nat :: !op.Union? || n == 0 ==> Combined(op, all, 0, n) == 0
    ensures forall r :: ValueCount([], r) == 0
  {
  }

  lemma UnionKeepsFirst(all: bool, acc: seq<Row>, next: seq<Row>)
    requires acc + next != []
    ensures Applied(Union, all, acc, next) != [] && Applied(Union, all, acc, next)[0] == (acc + next)[0]
  {
    hide RowEqual;
    DistinctKeepsFirst(acc + next);
  }

  lemma {:induction false} DistinctKeepsFirst(rows: seq<Row>)
    requires rows != []
    ensures Distinct(rows) != [] && Distinct(rows)[0] == rows[0]
  {
    hide RowEqual;
    if |rows| > 1 {
      DistinctKeepsFirst(rows[..|rows| - 1]);
    } else {
      assert Count(rows[..0], rows[0]) == 0;
    }
  }

  lemma {:induction false} FailedStays(op: SetOp, all: bool, arms: seq<seq<Row>>, n: nat)
    requires 0 < n <= |arms| && !Chain(op, all, arms[..n]).Ok?
    ensures Chain(op, all, arms) == Chain(op, all, arms[..n])
    decreases |arms|
  {
    hide ChainNext;
    if n < |arms| {
      var front := arms[..|arms| - 1];
      assert front[..n] == arms[..n];
      FailedStays(op, all, front, n);
    } else {
      assert arms[..n] == arms;
    }
  }

  // ---------------------------------------------------------------- chains of any operator

  /** A later arm's rows as the operator sees them. */
  function Named(acc: seq<Row>, next: seq<Row>): seq<Row> {
    if acc == [] || !NoneWider(next, |acc[0]|) then next else RenamedRows(next, acc[0])
  }

  /** No row of the next arm is wider than the first of the rows left so far, if any are. */
  predicate HasNamesFor(sofar: Outcome, next: seq<Row>) {
    sofar.Ok? && sofar.rows != [] ==> NoneWider(next, |sofar.rows[0]|)
  }

  predicate RunsThrough(op: SetOp, all: bool, arms: seq<seq<Row>>)
    requires arms != []
  {
    WidthsAgree(arms) && forall n :: 0 < n < |arms| ==> HasNamesFor(Chain(op, all, arms[..n]), arms[n])
  }

  lemma RunsThroughNext(op: SetOp, all: bool, front: seq<seq<Row>>, last: seq<Row>)
    requires front != []
    ensures RunsThrough(op, all, front + [last]) <==>
      && RunsThrough(op, all, front)
      && (last == [] || Width(front) == -1 || |last[0]| == Width(front))
      && HasNamesFor(Chain(op, all, front), last)
  {
    hide Chain, HasNamesFor, WidthsAgree, Width;
    var arms := front + [last];
    WidthsAgreeNext(front, last);
    assert arms[..|front|] == front && arms[|front|] == last;
    assert forall n :: 0 < n < |front| ==> front[..n] == arms[..n] && front[n] == arms[n];
  }

  lemma NextRuns(op: SetOp, all: bool, acc: seq<Row>, width: int, next: seq<Row>)
    requires width == -1 ==> acc == []
    ensures ChainNext(op, all, acc, width, next).Ok? <==>
      (next == [] || width == -1 || |next[0]| == width) && HasNamesFor(Ok(acc), next)
  {
    hide Applied;
  }

  /** A chain under any operator runs through exactly when the arms' first rows agree in width and there are names
      enough before each step. */
  lemma {:induction false} ChainRunsExactly(op: SetOp, all: bool, arms: seq<seq<Row>>)
    requires arms != []
    ensures Chain(op, all, arms).Ok? <==> RunsThrough(op, all, arms)
  {
    hide ChainNext, RunsThrough, HasNamesFor, Width;
    var front, last := arms[..|arms| - 1], arms[|arms| - 1];
    assert arms == front + [last];
    if |arms| == 1 {
      OneArmRuns(op, all, arms);
    } else {
      ChainRunsExactly(op, all, front);
      ChainWidths(op, all, front);
      RunsThroughNext(op, all, front, last);
      if Chain(op, all, front).Ok? {
        NextRuns(op, all, Chain(op, all, front).rows, Width(front), last);
      }
    }
  }

  lemma OneArmRuns(op: SetOp, all: bool, arms: seq<seq<Row>>)
    requires |arms| == 1
    ensures RunsThrough(op, all, arms)
  {
    WidthsOfOne(arms[0]);
    assert arms == [arms[0]];
  }

  lemma {:induction false} ChainApplies(op: SetOp, all: bool, arms: seq<seq<Row>>)
    requires |arms| > 1 && Chain(op, all, arms).Ok?
    ensures var front, last := arms[..|arms| - 1], arms[|arms| - 1];
      && Chain(op, all, front).Ok?
      && Chain(op, all, arms).rows
         == Applied(op, all, Chain(op, all, front).rows, Named(Chain(op, all, front).rows, last))
  {
    hide Applied;
    var front, last := arms[..|arms| - 1], arms[|arms| - 1];
    ChainWidths(op, all, front);
    assert last == [] ==> Named(Chain(op, all, front).rows, last) == last;
  }

  /** The names under which each arm has the values of `r`, as the operators see them. */
  function ArmNames(op: SetOp, all: bool, arms: seq<seq<Row>>, r: Row): (ms: seq<multiset<seq<string>>>)
    requires arms != [] && Chain(op, all, arms).Ok?
    ensures |ms| == |arms|
  {
    if |arms| == 1 then [NamesOf(arms[0], r)]
    else
      var front := arms[..|arms| - 1];
      ArmNames(op, all, front, r) + [NamesOf(Named(Chain(op, all, front).rows, arms[|arms| - 1]), r)]
  }

  lemma NamedCount(acc: seq<Row>, next: seq<Row>, r: Row)
    ensures |NamesOf(Named(acc, next), r)| == ValueCount(next, r)
  {
    NamesCount(Named(acc, next), r);
    if acc != [] && NoneWider(next, |acc[0]|) {
      RenamedValueCount(next, RenamedRows(next, acc[0]), r);
    } else {
      RenamedValueCount(next, next, r);
    }
  }

  lemma {:induction false} ArmNamesCount(op: SetOp, all: bool, arms: seq<seq<Row>>, r: Row)
    requires arms != [] && Chain(op, all, arms).Ok?
    ensures forall i :: 0 <= i < |arms| ==> |ArmNames(op, all, arms, r)[i]| == ValueCount(arms[i], r)
  {
    hide Named, NamesOf, ValueCount;
    if |arms| == 1 {
      NamesCount(arms[0], r);
    } else {
      var front := arms[..|arms| - 1];
      ArmNamesCount(op, all, front, r);
      NamedCount(Chain(op, all, front).rows, arms[|arms| - 1], r);
    }
  }

  function Joined(ms: seq<multiset<seq<string>>>): multiset<seq<string>> {
    if ms == [] then multiset{} else Joined(ms[..|ms| - 1]) + ms[|ms| - 1]
  }

  function Common(ms: seq<multiset<seq<string>>>): multiset<seq<string>>
    requires ms != []
  {
    if |ms| == 1 then ms[0] else Common(ms[..|ms| - 1]) * ms[|ms| - 1]
  }

  predicate LeastOf(ms: seq<multiset<seq<string>>>, j: nat)
    requires j < |ms|
  {
    forall i :: 0 <= i < |ms| ==> ms[j] <= ms[i]
  }

  /** When a chain counts values right: UNION and EXCEPT when they would with all later arms put together, INTERSECT
      ALL when one arm has the values under each list at most as often as any other, INTERSECT when all arms have
      exactly one list in common. */
  predicate ChainRight(op: SetOp, all: bool, ms: seq<multiset<seq<string>>>)
    requires ms != []
  {
    |ms| == 1 ||
    if !op.Intersect? then CountsRight(op, all, ms[0], Joined(ms[1..]))
    else if all then exists j :: 0 <= j < |ms| && LeastOf(ms, j)
    else (forall i :: 0 <= i < |ms| ==> |ms[i]| > 0) ==> |Common(ms)| > 0 && OneName(Common(ms))
  }

  lemma {:induction false} JoinedFromFirst(ms: seq<multiset<seq<string>>>)
    requires ms != []
    ensures Joined(ms) == ms[0] + Joined(ms[1..])
  {
    if |ms| == 1 {
      assert ms[..0] == [] && ms[1..] == [];
    } else {
      JoinedFromFirst(ms[..|ms| - 1]);
      assert ms[1..][..|ms| - 2] == ms[..|ms| - 1][1..];
    }
  }

  lemma {:induction false} SumIsJoined(arms: seq<seq<Row>>, ms: seq<multiset<seq<string>>>, r: Row)
    requires |ms| == |arms| && forall i :: 0 <= i < |arms| ==> |ms[i]| == ValueCount(arms[i], r)
    ensures Sum(arms, r) == |Joined(ms)|
  {
    hide ValueCount;
    if arms != [] {
      SumIsJoined(arms[..|arms| - 1], ms[..|ms| - 1], r);
    }
  }

  lemma {:induction false} CommonIsGreatest(ms: seq<multiset<seq<string>>>, x: multiset<seq<string>>)
    requires ms != []
    ensures forall i :: 0 <= i < |ms| ==> Common(ms) <= ms[i]
    ensures (forall i :: 0 <= i < |ms| ==> x <= ms[i]) ==> x <= Common(ms)
  {
    if |ms| > 1 {
      var front := ms[..|ms| - 1];
      CommonIsGreatest(front, x);
      assert forall i :: 0 <= i < |front| ==> front[i] == ms[i];
      forall i | 0 <= i < |ms|
        ensures Common(ms) <= ms[i]
      {
        assert i < |front| ==> Common(front) <= front[i];
      }
    }
  }

  /** How often the result has the values under one list of names. */
  lemma {:induction false} ChainNames(op: SetOp, all: bool, arms: seq<seq<Row>>, r: Row, names: seq<string>)
    requires |arms| > 1 && Chain(op, all, arms).Ok?
    ensures var ms := ArmNames(op, all, arms, r);
      NamesOf(Chain(op, all, arms).rows, r)[names] ==
        if !op.Intersect? then Combined(op, all, ms[0][names], Joined(ms[1..])[names])
        else if all then Common(ms)[names]
        else if names in Common(ms) then 1 else 0
  {
    hide Applied, Named, NamesOf;
    var front, last := arms[..|arms| - 1], arms[|arms| - 1];
    var ms, before := ArmNames(op, all, arms, r), ArmNames(op, all, front, r);
    ChainApplies(op, all, arms);
    var acc := Chain(op, all, front).rows;
    NamesOfApplied(op, all, acc, Named(acc, last), r, names);
    assert ms == before + [NamesOf(Named(acc, last), r)] && ms[..|front|] == before;
    assert ms[1..][..|front| - 1] == before[1..];
    if |front| > 1 {
      ChainNames(op, all, front, r, names);
    } else {
      assert Joined(before[1..]) == multiset{};
    }
  }

  lemma LeastCounts(ms: seq<multiset<seq<string>>>, total: nat)
    requires ms != [] && (forall i :: 0 <= i < |ms| ==> total <= |ms[i]|)
    requires exists i :: 0 <= i < |ms| && total == |ms[i]|
    ensures |Common(ms)| == total <==> exists j :: 0 <= j < |ms| && LeastOf(ms, j)
  {
    var i :| 0 <= i < |ms| && total == |ms[i]|;
    CommonIsGreatest(ms, multiset{});
    Smaller(Common(ms), ms[i]);
    if |Common(ms)| == total {
      assert LeastOf(ms, i);
    }
    if j :| 0 <= j < |ms| && LeastOf(ms, j) {
      CommonIsGreatest(ms, ms[j]);
      assert Common(ms) == ms[j];
      Smaller(ms[j], ms[i]);
    }
  }

  lemma OneCommonCounts(ms: seq<multiset<seq<string>>>, m: multiset<seq<string>>)
    requires ms != [] && forall n :: m[n] == if n in Common(ms) then 1 else 0
    ensures (|m| == if forall i :: 0 <= i < |ms| ==> |ms[i]| > 0 then 1 else 0) <==>
      ((forall i :: 0 <= i < |ms| ==> |ms[i]| > 0) ==> |Common(ms)| > 0 && OneName(Common(ms)))
  {
    assert forall n :: n in m <==> n in Common(ms);
    AtMostOnce(m);
    SomeIn(Common(ms));
    CommonIsGreatest(ms, multiset{});
    if i :| 0 <= i < |ms| && |ms[i]| == 0 {
      Smaller(Common(ms), ms[i]);
    }
  }

  /** UNION and EXCEPT come to one step with all later arms together. */
  lemma TotalInOneStep(op: SetOp, all: bool, arms: seq<seq<Row>>, r: Row, ms: seq<multiset<seq<string>>>)
    requires |ms| == |arms| > 1 && !op.Intersect?
    requires forall i :: 0 <= i < |arms| ==> |ms[i]| == ValueCount(arms[i], r)
    ensures Total(op, all, arms, r) == Combined(op, all, |ms[0]|, |Joined(ms[1..])|)
  {
    hide ValueCount, Total, Sum, Joined;
    ChainMeaning(op, all, arms, r);
    SumIsJoined(arms, ms, r);
    JoinedFromFirst(ms);
  }

  lemma ChainCountsAt(op: SetOp, all: bool, arms: seq<seq<Row>>, r: Row)
    requires |arms| > 1 && Chain(op, all, arms).Ok?
    ensures CountedAt(op, all, arms, Chain(op, all, arms).rows, r) <==>
      ChainRight(op, all, ArmNames(op, all, arms, r))
  {
    hide Chain, ArmNames, ValueCount, Total, NamesOf, CountsRight, Combined, OneName, LeastOf, Common, Joined;
    var rows, ms := Chain(op, all, arms).rows, ArmNames(op, all, arms, r);
    ArmNamesCount(op, all, arms, r);
    NamesCount(rows, r);
    forall names
      ensures NamesOf(rows, r)[names] ==
        if !op.Intersect? then Combined(op, all, ms[0][names], Joined(ms[1..])[names])
        else if all then Common(ms)[names]
        else if names in Common(ms) then 1 else 0
    {
      ChainNames(op, all, arms, r, names);
    }
    if !op.Intersect? {
      TotalInOneStep(op, all, arms, r, ms);
      CountsRightFor(op, all, ms[0], Joined(ms[1..]), NamesOf(rows, r));
    } else {
      ChainMeaning(op, all, arms, r);
      if all {
        assert NamesOf(rows, r) == Common(ms);
        LeastCounts(ms, Total(op, all, arms, r));
      } else {
        OneCommonCounts(ms, NamesOf(rows, r));
      }
    }
  }

  ghost predicate CountsAllRight(op: SetOp, all: bool, arms: seq<seq<Row>>)
    requires arms != [] && Chain(op, all, arms).Ok?
  {
    forall r :: ChainRight(op, all, ArmNames(op, all, arms, r))
  }

  /** Any chain counts values right exactly when `ChainRight` holds of the names of each. */
  lemma ChainCountsExactly(op: SetOp, all: bool, arms: seq<seq<Row>>)
    requires arms != [] && Chain(op, all, arms).Ok?
    ensures CountedRight(op, all, arms, Chain(op, all, arms).rows) <==> CountsAllRight(op, all, arms)
  {
    hide Chain, ArmNames, ChainRight, ValueCount, Total;
    var rows := Chain(op, all, arms).rows;
    forall r
      ensures CountedAt(op, all, arms, rows, r) <==> ChainRight(op, all, ArmNames(op, all, arms, r))
    {
      if |arms| > 1 {
        ChainCountsAt(op, all, arms, r);
      } else {
        OneArmCounts(op, all, arms, r);
      }
    }
    if forall r :: ChainRight(op, all, ArmNames(op, all, arms, r)) {
      assert forall r :: CountedAt(op, all, arms, rows, r);
    } else {
      var r :| !ChainRight(op, all, ArmNames(op, all, arms, r));
      assert !CountedAt(op, all, arms, rows, r);
    }
  }

  lemma OneArmCounts(op: SetOp, all: bool, arms: seq<seq<Row>>, r: Row)
    requires |arms| == 1
    ensures CountedAt(op, all, arms, Chain(op, all, arms).rows, r)
    ensures ChainRight(op, all, ArmNames(op, all, arms, r))
  {
  }

  /** A chain of SELECT arms under one set operator (sql.c `sql__exec_select_stmt`). */
  method SelectChain(arms: seq<seq<Row>>, op: SetOp, all: bool) returns (out: Outcome)
    requires arms != []
    ensures out == Chain(op, all, arms)
    ensures out.Ok? <==> RunsThrough(op, all, arms)
    ensures out.DifferentWidths? ==> !WidthsAgree(arms)
    ensures out.Ok? ==> (CountedRight(op, all, arms, out.rows) <==> CountsAllRight(op, all, arms))
  {
    hide Applied, Chain, Width, WidthsAgree, NoneWider, CountedRight, RunsThrough, CountsAllRight;
    var acc := new RowSet(arms[0]);
    var width := if acc.count > 0 then |acc.rows[0]| else -1;
    FirstArm(op, all, arms);
    var n := 1;
    while n < |arms|
      invariant 1 <= n <= |arms|
      invariant acc.Valid() && fresh(acc) && fresh(acc.rows)
      invariant Chain(op, all, arms[..n]) == Ok(acc.Contents()) && width == Width(arms[..n])
    {
      var next := new RowSet(arms[n]);
      ghost var sofar := acc.Contents();
      assert sofar != [] ==> sofar[0] == acc.rows[0];
      NextArm(op, all, arms, n);
      if next.count > 0 {
        assert next.rows[0] == arms[n][0];
        if width != -1 && |next.rows[0]| != width {
          FailedStays(op, all, arms, n + 1);
          ChainResult(op, all, arms);
          return DifferentWidths;
        }
        if width == -1 {
          width := |next.rows[0]|;
        } else if acc.count > 0 {
          if !NoneWider(next.rows[..next.count], |acc.rows[0]|) {
            FailedStays(op, all, arms, n + 1);
            ChainResult(op, all, arms);
            return Overrun;
          }
          RenameLike(next, acc.rows[0]);
        }
      }
      ApplyOp(op, all, acc, next);
      n := n + 1;
    }
    assert arms[..n] == arms;
    out := Ok(acc.rows[..acc.count]);
    ChainResult(op, all, arms);
  }

  lemma FirstArm(op: SetOp, all: bool, arms: seq<seq<Row>>)
    requires arms != []
    ensures Chain(op, all, arms[..1]) == Ok(arms[0])
    ensures Width(arms[..1]) == if arms[0] == [] then -1 else |arms[0][0]|
  {
    WidthsOfOne(arms[0]);
    assert arms[..1] == [arms[0]];
  }

  lemma NextArm(op: SetOp, all: bool, arms: seq<seq<Row>>, n: nat)
    requires 0 < n < |arms| && Chain(op, all, arms[..n]).Ok?
    ensures Chain(op, all, arms[..n + 1])
         == ChainNext(op, all, Chain(op, all, arms[..n]).rows, Width(arms[..n]), arms[n])
    ensures Width(arms[..n + 1])
         == if Width(arms[..n]) == -1 then (if arms[n] == [] then -1 else |arms[n][0]|) else Width(arms[..n])
  {
    hide ChainNext;
    assert arms[..n + 1] == arms[..n] + [arms[n]] && arms[..n + 1][..n] == arms[..n];
    WidthNext(arms[..n], arms[n]);
  }

  lemma ChainResult(op: SetOp, all: bool, arms: seq<seq<Row>>)
    requires arms != []
    ensures Chain(op, all, arms).Ok? <==> RunsThrough(op, all, arms)
    ensures Chain(op, all, arms).DifferentWidths? ==> !WidthsAgree(arms)
    ensures Chain(op, all, arms).Ok? ==>
      (CountedRight(op, all, arms, Chain(op, all, arms).rows) <==> CountsAllRight(op, all, arms))
  {
    ChainWidths(op, all, arms);
    ChainRunsExactly(op, all, arms);
    if Chain(op, all, arms).Ok? {
      ChainCountsExactly(op, all, arms);
    }
  }

  /** Two arms run through exactly when one is empty, or their first rows agree in width and no row of the second
      is wider; and then values are counted right exactly when `CountsRight` holds for each. */
  lemma PairExactly(op: SetOp, all: bool, a: seq<Row>, b: seq<Row>)
    ensures Chain(op, all, [a, b]).Ok? <==> a == [] || b == [] || (|a[0]| == |b[0]| && NoneWider(b, |a[0]|))
    ensures Chain(op, all, [a, b]).Ok? ==>
      ((forall r :: ValueCount(Chain(op, all, [a, b]).rows, r) == Total(op, all, [a, b], r))
       <==> forall r :: CountsRight(op, all, NamesOf(a, r), NamesOf(Named(a, b), r)))
  {
    hide Applied, ValueCount, NamesOf, CountsRight, Combined;
    var arms := [a, b];
    assert arms[..1] == [a];
    WidthsOfOne(a);
    assert Chain(op, all, [a]) == Ok(a);
    if Chain(op, all, arms).Ok? {
      var named := Named(a, b);
      assert b == [] ==> named == b;
      assert Chain(op, all, arms) == Ok(Applied(op, all, a, named));
      OperatorCounts(op, all, a, named);
      forall r
        ensures Total(op, all, arms, r) == Combined(op, all, ValueCount(a, r), ValueCount(named, r))
      {
        RenamedValueCount(b, named, r);
        assert Total(op, all, [a], r) == ValueCount(a, r);
      }
    }
  }

  // ---------------------------------------------------------------- rows told apart

  /** Rows of NULLs, strings and numbers that share their equality with no others: on these the operators are those
      of multisets and sets, and no two rows that differ anywhere are taken for one. */
  predicate ExactRows(rows: seq<Row>) {
    forall i :: 0 <= i < |rows| ==> ExactRow(rows[i])
  }

  lemma {:induction false} CountIsMultiplicity(rows: seq<Row>, r: Row)
    requires ExactRows(rows) && ExactRow(r)
    ensures Count(rows, r) == multiset(rows)[r]
  {
    hide RowEqual, ExactRow;
    if rows != [] {
      var front, last := rows[..|rows| - 1], rows[|rows| - 1];
      CountIsMultiplicity(front, r);
      RowEqualExactly(last, r);
      assert rows == front + [last];
    }
  }

  lemma AppliedAmong(op: SetOp, all: bool, acc: seq<Row>, next: seq<Row>)
    ensures forall r :: r in Applied(op, all, acc, next) ==> r in acc || r in next
  {
    hide Survivors;
    if op.Union? {
      SurvivorsAmong(First, acc + next, []);
    } else {
      FewerRows(op, all, acc, next);
    }
  }

  /** How often each row is in the result of one operator. */
  lemma OperatorKeepsApart(op: SetOp, all: bool, acc: seq<Row>, next: seq<Row>, r: Row)
    requires ExactRows(acc) && ExactRows(next)
    ensures ExactRows(Applied(op, all, acc, next))
    ensures multiset(Applied(op, all, acc, next))[r]
         == Combined(op, all, multiset(acc)[r], multiset(next)[r])
  {
    hide Applied, ExactRow, Count;
    var out := Applied(op, all, acc, next);
    AppliedAmong(op, all, acc, next);
    forall i | 0 <= i < |out|
      ensures ExactRow(out[i])
    {
      assert out[i] in out;
    }
    if ExactRow(r) {
      AppliedCount(op, all, acc, next, r);
      CountIsMultiplicity(acc, r);
      CountIsMultiplicity(next, r);
      CountIsMultiplicity(out, r);
    } else {
      assert r !in out && r !in acc && r !in next;
    }
  }

  /** INTERSECT ALL and EXCEPT ALL are those of multisets. Without ALL the operators are those of sets, and no row
      is there twice. */
  lemma ExactSetOperators(acc: seq<Row>, next: seq<Row>)
    requires ExactRows(acc) && ExactRows(next)
    ensures multiset(Applied(Intersect, true, acc, next)) == multiset(acc) * multiset(next)
    ensures multiset(Applied(Except, true, acc, next)) == multiset(acc) - multiset(next)
    ensures forall op, r :: InSet(op, acc, next, r) && AtMostOneOf(Applied(op, false, acc, next), r)
  {
    hide Applied, ExactRows;
    forall all, op, r
      ensures multiset(Applied(op, all, acc, next))[r] == Combined(op, all, multiset(acc)[r], multiset(next)[r])
    {
      OperatorKeepsApart(op, all, acc, next, r);
    }
    forall op, r
      ensures InSet(op, acc, next, r) && AtMostOneOf(Applied(op, false, acc, next), r)
    {
      assert multiset(Applied(op, false, acc, next))[r] == Combined(op, false, multiset(acc)[r], multiset(next)[r]);
      Occurs(Applied(op, false, acc, next), r);
      Occurs(acc, r);
      Occurs(next, r);
      forall i, j | 0 <= i < j < |Applied(op, false, acc, next)|
        ensures !(Applied(op, false, acc, next)[i] == r == Applied(op, false, acc, next)[j])
      {
        TwiceIsTwo(Applied(op, false, acc, next), i, j);
      }
    }
  }

  predicate InSet(op: SetOp, acc: seq<Row>, next: seq<Row>, r: Row) {
    r in Applied(op, false, acc, next) <==>
      match op
      case Union => r in acc || r in next
      case Intersect => r in acc && r in next
      case Except => r in acc && r !in next
  }

  predicate AtMostOneOf(rows: seq<Row>, r: Row) {
    forall i, j :: 0 <= i < j < |rows| ==> !(rows[i] == r == rows[j])
  }

  lemma Occurs(rows: seq<Row>, r: Row)
    ensures r in rows <==> multiset(rows)[r] > 0
  {
  }

  lemma TwiceIsTwo(rows: seq<Row>, i: nat, j: nat)
    requires i < j < |rows|
    ensures rows[i] == rows[j] ==> multiset(rows)[rows[i]] >= 2
  {
    assert rows == rows[..i + 1] + rows[i + 1..];
    assert rows[i] in rows[..i + 1] && rows[j] in rows[i + 1..];
  }

  predicate ExactArms(arms: seq<seq<Row>>, shape: Row) {
    forall i :: 0 <= i < |arms| ==> ExactRows(arms[i]) && AllLike(arms[i], shape)
  }

  /** How often a row is in the result, by how often it is in the arms. */
  function Occurrences(op: SetOp, all: bool, arms: seq<seq<Row>>, r: Row): nat
    requires arms != []
  {
    if |arms| == 1 then multiset(arms[0])[r]
    else Combined(op, all, Occurrences(op, all, arms[..|arms| - 1], r), multiset(arms[|arms| - 1])[r])
  }

  lemma RenamedAlike(rows: seq<Row>, like: Row, shape: Row)
    requires AllLike(rows, shape) && SameShape(like, shape)
    ensures NoneWider(rows, |like|) && RenamedRows(rows, like) == rows
  {
    forall i | 0 <= i < |rows|
      ensures |rows[i]| <= |like| && Renamed(rows[i], like) == rows[i]
    {
      assert SameShape(rows[i], shape);
    }
  }

  /** Arms of the same columns and such values always run through, and each row is in the result as often as the
      operators of multisets or sets say. */
  lemma {:induction false} ExactChain(op: SetOp, all: bool, arms: seq<seq<Row>>, shape: Row)
    requires arms != [] && ExactArms(arms, shape)
    ensures var out := Chain(op, all, arms);
      out.Ok? && ExactRows(out.rows) && AllLike(out.rows, shape)
      && forall r :: multiset(out.rows)[r] == Occurrences(op, all, arms, r)
  {
    hide ExactRows, AllLike, Applied, NoneWider;
    if |arms| > 1 {
      var front, last := arms[..|arms| - 1], arms[|arms| - 1];
      ExactChain(op, all, front, shape);
      var acc := Chain(op, all, front).rows;
      WidthOfAlike(front, shape);
      FirstOfAlike(last, shape);
      if acc != [] {
        FirstOfAlike(acc, shape);
        RenamedAlike(last, acc[0], shape);
      }
      var out := Applied(op, all, acc, last);
      forall r
        ensures multiset(out)[r] == Combined(op, all, multiset(acc)[r], multiset(last)[r])
      {
        OperatorKeepsApart(op, all, acc, last, r);
      }
      OperatorKeepsApart(op, all, acc, last, shape);
      AppliedAlike(op, all, acc, last, shape);
      assert Chain(op, all, arms) == Ok(out);
    } else {
      assert ExactRows(arms[0]) && AllLike(arms[0], shape);
    }
  }

  lemma FirstOfAlike(rows: seq<Row>, shape: Row)
    requires AllLike(rows, shape)
    ensures rows != [] ==> |rows[0]| == |shape| && SameShape(rows[0], shape)
  {
  }

  lemma {:induction false} WidthOfAlike(arms: seq<seq<Row>>, shape: Row)
    requires forall i :: 0 <= i < |arms| ==> AllLike(arms[i], shape)
    ensures Width(arms) == -1 || Width(arms) == |shape|
  {
    if arms != [] {
      FirstOfAlike(arms[0], shape);
      WidthOfAlike(arms[1..], shape);
    }
  }

  lemma AppliedAlike(op: SetOp, all: bool, acc: seq<Row>, next: seq<Row>, shape: Row)
    requires AllLike(acc, shape) && AllLike(next, shape)
    ensures AllLike(Applied(op, all, acc, next), shape)
  {
    hide Applied, SameShape;
    AppliedAmong(op, all, acc, next);
    forall i | 0 <= i < |Applied(op, all, acc, next)|
      ensures SameShape(Applied(op, all, acc, next)[i], shape)
    {
      assert Applied(op, all, acc, next)[i] in Applied(op, all, acc, next);
    }
  }
}
