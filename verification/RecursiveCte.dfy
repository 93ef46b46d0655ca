/** WITH RECURSIVE by semi-naive iteration (src/sql.c; ISO/IEC 9075-2:2003 section 7.13). */
module RecursiveCte {
  import opened Values
  import opened SqlRows
  import opened SetOperators

  /** The recursive term is any function from the contents of the CTE's table to rows, or an error. Only the
    last round's new rows are in that table while the term runs.
   */

  const MAX_RECURSIVE_ITERS: nat := 10000

  type Term = seq<Row> -> Option<seq<Row>>

  datatype CteResult = Converged(rows: seq<Row>) | EmptyBase | TermFailed | WrongShape | NotConverged

  /** The rows of a round that are new: all of them under UNION ALL. */
  function Fresh(produced: seq<Row>, acc: seq<Row>, unionAll: bool): seq<Row> {
    if unionAll then produced else Difference(produced, acc, false)
  }

  /** The rounds from a given state, with `rounds` of them left. */
  function Rounds(term: Term, acc: seq<Row>, working: seq<Row>, unionAll: bool, rounds: nat): CteResult
    requires acc != []
    decreases rounds
  {
    if rounds == 0 then NotConverged
    else
      match term(working)
      case None => TermFailed
      case Some(produced) =>
        if produced != [] && !SameShape(produced[0], acc[0]) then WrongShape
        else
          var novel := Fresh(produced, acc, unionAll);
          if novel == [] then Converged(acc)
          else Rounds(term, acc + novel, novel, unionAll, rounds - 1)
  }

  function Recursive(term: Term, base: seq<Row>, unionAll: bool): CteResult {
    if base == [] then EmptyBase else Rounds(term, base, base, unionAll, MAX_RECURSIVE_ITERS)
  }

  /** sql.c `sql__exec_with_recursive_stmt`, from the base rows on; `working` is the CTE's own table. */
  method Evaluate(term: Term, base: seq<Row>, unionAll: bool) returns (out: CteResult)
    ensures out == Recursive(term, base, unionAll)
  {
    hide SameShape, Difference, Intersection;
    if base == [] {
      return EmptyBase;
    }
    var working := base;
    var accumulated := new RowSet(base);
    var converged, iter := false, 0;
    while iter < MAX_RECURSIVE_ITERS
      invariant 0 <= iter <= MAX_RECURSIVE_ITERS
      invariant accumulated.Valid() && fresh(accumulated) && fresh(accumulated.rows)
      invariant accumulated.count > 0
      invariant Recursive(term, base, unionAll)
             == Rounds(term, accumulated.Contents(), working, unionAll, MAX_RECURSIVE_ITERS - iter)
    {
      var produced := term(working);
      if produced.None? {
        return TermFailed;
      }
      var newRows := new RowSet(produced.value);
      if newRows.count > 0 && !SameShape(newRows.rows[0], accumulated.rows[0]) {
        return WrongShape;
      }
      if !unionAll {
        newRows.Except(accumulated, false);
      }
      if newRows.count == 0 {
        converged := true;
        break;
      }
      working := newRows.rows[..newRows.count];
      accumulated.Append(newRows);
      iter := iter + 1;
    }
    if !converged {
      return NotConverged;
    }
    return Converged(accumulated.rows[..accumulated.count]);
  }

  // ---------------------------------------------------------------- rows as a set

  /** Membership up to row equality; a row that does not equal itself is a member where it literally is. */
  predicate Mem(r: Row, rows: seq<Row>) {
    r in rows || Count(rows, r) > 0
  }

  predicate Subset(a: seq<Row>, b: seq<Row>) {
    forall r :: r in a ==> Mem(r, b)
  }

  ghost predicate SameSet(a: seq<Row>, b: seq<Row>) {
    forall r :: Mem(r, a) <==> Mem(r, b)
  }

  lemma MemAppend(r: Row, a: seq<Row>, b: seq<Row>)
    ensures Mem(r, a + b) <==> Mem(r, a) || Mem(r, b)
  {
    CountAppend(a, b, r);
  }

  lemma MemThrough(r: Row, a: seq<Row>, b: seq<Row>)
    requires Mem(r, a) && Subset(a, b)
    ensures Mem(r, b)
  {
    hide RowEqual, Count;
    if r !in a {
      CountPositive(a, r);
      var i :| 0 <= i < |a| && RowEqual(a[i], r);
      assert Mem(a[i], b);
      if a[i] in b {
        var j :| 0 <= j < |b| && b[j] == a[i];
        CountPositive(b, r);
      } else {
        CountRespects(b, a[i], r);
      }
    }
  }

  lemma {:induction false} SurvivorsFrom(k: Keep, rows: seq<Row>, src: seq<Row>, r: Row)
    ensures r in Survivors(k, rows, src) ==> r in rows
    ensures r in rows && !RowEqual(r, r) && !k.Matched? && !k.Present? ==> r in Survivors(k, rows, src)
  {
    hide RowEqual, Survives;
    if rows != [] {
      var front, last := rows[..|rows| - 1], rows[|rows| - 1];
      SurvivorsFrom(k, front, src, r);
      if !RowEqual(r, r) {
        UnequalRowsSurvive(k, front, r, src);
      }
    }
  }

  /** What a round leaves out was there already. */
  lemma FreshCovers(produced: seq<Row>, acc: seq<Row>, unionAll: bool)
    ensures Subset(produced, acc + Fresh(produced, acc, unionAll))
    ensures forall r :: r in Fresh(produced, acc, unionAll) ==> r in produced
  {
    hide RowEqual, Survivors;
    var novel := Fresh(produced, acc, unionAll);
    var absent := Survivors(Absent, produced, acc);
    forall r
      ensures r in novel ==> r in produced
      ensures r in produced ==> Mem(r, acc + novel)
    {
      SurvivorsFrom(Absent, produced, acc, r);
      SurvivorsFrom(First, absent, [], r);
      MemAppend(r, acc, novel);
      if r in produced && !unionAll && RowEqual(r, r) {
        var j :| 0 <= j < |produced| && produced[j] == r;
        CountPositive(produced, r);
        DifferenceCount(produced, acc, false, r);
      }
    }
  }

  // ---------------------------------------------------------------- UNION: the least fixpoint

  function Out(term: Term, s: seq<Row>): seq<Row> {
    match term(s)
    case None => []
    case Some(rows) => rows
  }

  /** A term without aggregates over the CTE: rows derive from rows, one by one. */
  ghost predicate UnionPreserving(term: Term) {
    && (forall s :: term(s).Some?)
    && (forall a, b, r :: Mem(r, Out(term, a + b)) <==> Mem(r, Out(term, a)) || Mem(r, Out(term, b)))
    && (forall a, b :: SameSet(a, b) ==> SameSet(Out(term, a), Out(term, b)))
  }

  ghost predicate Within(s: seq<Row>, x: Row -> bool) {
    forall r :: r in s ==> x(r)
  }

  ghost predicate Closed(term: Term, x: Row -> bool) {
    forall s :: Within(s, x) ==> Within(Out(term, s), x)
  }

  /** The derivations of a closed superset of the base never leave it. */
  lemma {:induction false} RoundsStayWithin(term: Term, acc: seq<Row>, working: seq<Row>, unionAll: bool,
                                            rounds: nat, x: Row -> bool)
    requires acc != [] && Within(acc, x) && Within(working, x) && Closed(term, x)
    ensures var out := Rounds(term, acc, working, unionAll, rounds); out.Converged? ==> Within(out.rows, x)
    decreases rounds
  {
    hide SameShape, Fresh;
    if rounds > 0 && term(working).Some? {
      var produced := Out(term, working);
      var novel := Fresh(produced, acc, unionAll);
      FreshCovers(produced, acc, unionAll);
      assert Within(produced, x);
      if novel != [] {
        RoundsStayWithin(term, acc + novel, novel, unionAll, rounds - 1, x);
      }
    }
  }

  /** `done` are the rows whose derivations are all in already. */
  ghost predicate SemiNaive(term: Term, acc: seq<Row>, done: seq<Row>, working: seq<Row>) {
    acc == done + working && (done != [] ==> Subset(Out(term, done), acc))
  }

  /** The whole of what `acc` derives is what `done` and `working` derive. */
  lemma RoundComplete(term: Term, acc: seq<Row>, done: seq<Row>, working: seq<Row>, novel: seq<Row>)
    requires UnionPreserving(term) && SemiNaive(term, acc, done, working)
    requires Subset(Out(term, working), acc + novel)
    ensures Subset(Out(term, acc), acc + novel)
  {
    hide Mem, Out, SameSet;
    forall r | r in Out(term, acc)
      ensures Mem(r, acc + novel)
    {
      InIsMem(r, Out(term, acc));
      if done == [] {
        assert acc == working;
      } else if Mem(r, Out(term, done)) {
        MemThrough(r, Out(term, done), acc);
        MemAppend(r, acc, novel);
      } else {
        assert Mem(r, Out(term, working));
        MemThrough(r, Out(term, working), acc + novel);
      }
    }
  }

  lemma InIsMem(r: Row, rows: seq<Row>)
    requires r in rows
    ensures Mem(r, rows)
  {
  }

  lemma {:induction false} RoundsReachFixpoint(term: Term, acc: seq<Row>, done: seq<Row>, working: seq<Row>,
                                               rounds: nat)
    requires acc != [] && UnionPreserving(term) && SemiNaive(term, acc, done, working)
    ensures var out := Rounds(term, acc, working, false, rounds);
            out.Converged? ==> acc <= out.rows && Subset(Out(term, out.rows), out.rows)
    decreases rounds
  {
    hide SameShape, Fresh, UnionPreserving, Subset;
    if rounds > 0 && term(working).Some? {
      var produced := Out(term, working);
      var novel := Fresh(produced, acc, false);
      FreshCovers(produced, acc, false);
      RoundComplete(term, acc, done, working, novel);
      if novel != [] {
        RoundsReachFixpoint(term, acc + novel, acc, novel, rounds - 1);
      } else {
        assert acc + novel == acc;
      }
    }
  }

  /** A sequence that takes in its own derivations is closed as a set. */
  lemma SubsetIsClosed(term: Term, acc: seq<Row>)
    requires UnionPreserving(term) && Subset(Out(term, acc), acc)
    ensures Closed(term, r => Mem(r, acc))
  {
    hide Mem, Out;
    forall s | Within(s, r => Mem(r, acc))
      ensures Within(Out(term, s), r => Mem(r, acc))
    {
      Absorbed(s, acc);
      forall r | r in Out(term, s)
        ensures Mem(r, acc)
      {
        InIsMem(r, Out(term, s));
        assert Mem(r, Out(term, s + acc));
        assert SameSet(Out(term, s + acc), Out(term, acc));
        MemThrough(r, Out(term, acc), acc);
      }
    }
  }

  lemma Absorbed(s: seq<Row>, acc: seq<Row>)
    requires forall r :: r in s ==> Mem(r, acc)
    ensures SameSet(s + acc, acc)
  {
    hide Mem;
    forall r
      ensures Mem(r, s + acc) <==> Mem(r, acc)
    {
      MemAppend(r, s, acc);
      if Mem(r, s) {
        MemThrough(r, s, acc);
      }
    }
  }

  /** On convergence the rows are, as a set, the least one that holds the base and is closed under the term. */
  lemma {:induction false} LeastFixpoint(term: Term, base: seq<Row>, x: Row -> bool)
    requires UnionPreserving(term)
    requires Recursive(term, base, false).Converged?
    ensures var rows := Recursive(term, base, false).rows;
            && base <= rows
            && Closed(term, r => Mem(r, rows))
            && (Within(base, x) && Closed(term, x) ==> Within(rows, x))
  {
    hide Rounds, UnionPreserving, Closed, Mem;
    RoundsReachFixpoint(term, base, [], base, MAX_RECURSIVE_ITERS);
    SubsetIsClosed(term, Recursive(term, base, false).rows);
    if Within(base, x) && Closed(term, x) {
      RoundsStayWithin(term, base, base, false, MAX_RECURSIVE_ITERS, x);
    }
  }

  // ---------------------------------------------------------------- UNION: distinct rows, convergence

  /** No row of `added` equals another one of them, or one of `base`. */
  ghost predicate AddsOnce(base: seq<Row>, added: seq<Row>) {
    forall r :: Count(added, r) <= (if Count(base, r) > 0 then 0 else 1)
  }

  lemma AddsOnceNext(base: seq<Row>, added: seq<Row>, produced: seq<Row>)
    requires AddsOnce(base, added)
    ensures AddsOnce(base, added + Fresh(produced, base + added, false))
  {
    hide Count, Difference;
    var novel := Fresh(produced, base + added, false);
    forall r
      ensures Count(added + novel, r) <= if Count(base, r) > 0 then 0 else 1
    {
      CountAppend(base, added, r);
      CountAppend(added, novel, r);
      DifferenceCount(produced, base + added, false, r);
    }
  }

  lemma {:induction false} RoundsAddOnce(term: Term, base: seq<Row>, added: seq<Row>, working: seq<Row>,
                                         rounds: nat) returns (all: seq<Row>)
    requires base != [] && AddsOnce(base, added)
    ensures AddsOnce(base, all)
    ensures var out := Rounds(term, base + added, working, false, rounds);
            out.Converged? ==> out.rows == base + all
    decreases rounds
  {
    hide SameShape, Fresh, AddsOnce;
    all := added;
    if rounds > 0 && term(working).Some? {
      var novel := Fresh(Out(term, working), base + added, false);
      if novel != [] {
        AddsOnceNext(base, added, Out(term, working));
        all := RoundsAddOnce(term, base, added + novel, novel, rounds - 1);
        assert base + added + novel == base + (added + novel);
      }
    }
  }

  /** What UNION adds to the base it adds once. */
  lemma AddedRowsDistinct(term: Term, base: seq<Row>) returns (added: seq<Row>)
    requires Recursive(term, base, false).Converged?
    ensures Recursive(term, base, false).rows == base + added
    ensures AddsOnce(base, added)
  {
    hide Rounds;
    assert base + [] == base;
    added := RoundsAddOnce(term, base, [], base, MAX_RECURSIVE_ITERS);
  }

  /** Rows derived from `base` and `closure` equal one of those. */
  ghost predicate Covers(term: Term, base: seq<Row>, closure: seq<Row>) {
    forall s :: Within(s, r => Count(base + closure, r) > 0) ==>
      term(s).Some? && Within(Out(term, s), r => Count(base + closure, r) > 0)
  }

  /** As many rows, no two equal, as there are rows they equal: at most. */
  lemma {:induction false} Pigeonhole(rows: seq<Row>, closure: seq<Row>)
    requires forall r :: Count(rows, r) <= 1
    requires forall r :: r in rows ==> Count(closure, r) > 0
    ensures |rows| <= |closure|
  {
    hide RowEqual, Count;
    if rows != [] {
      var front, last := rows[..|rows| - 1], rows[|rows| - 1];
      CountPositive(closure, last);
      var i :| 0 <= i < |closure| && RowEqual(closure[i], last);
      var rest := closure[..i] + closure[i + 1..];
      forall r
        ensures Count(front, r) <= 1
        ensures r in front ==> Count(rest, r) > 0
      {
        assert rows == front + [last];
        CountNext(front, last, r);
        CountWithout(closure, i, r);
        if r in front && RowEqual(closure[i], r) {
          TwoEqual(front, last, closure[i], r);
        }
      }
      Pigeonhole(front, rest);
    }
  }

  lemma TwoEqual(front: seq<Row>, last: Row, c: Row, r: Row)
    requires r in front && RowEqual(c, r) && RowEqual(c, last)
    ensures Count(front + [last], r) >= 2
  {
    hide RowEqual, Count;
    RowEqualSymmetric(c, last);
    RowEqualSymmetric(c, r);
    RowEqualTransitive(last, c, r);
    RowEqualTransitive(r, c, r);
    CountNext(front, last, r);
    CountPositive(front, r);
  }

  lemma CountWithout(rows: seq<Row>, i: nat, r: Row)
    requires i < |rows|
    ensures Count(rows, r)
         == Count(rows[..i] + rows[i + 1..], r) + (if RowEqual(rows[i], r) then 1 else 0)
  {
    hide RowEqual, Count;
    assert rows == (rows[..i] + [rows[i]]) + rows[i + 1..];
    CountAppend(rows[..i] + [rows[i]], rows[i + 1..], r);
    CountNext(rows[..i], rows[i], r);
    CountAppend(rows[..i], rows[i + 1..], r);
  }

  /** Every round but the last adds a row of the closure, so there are at most |closure| + 1 of them. */
  lemma {:induction false} RoundsConverge(term: Term, base: seq<Row>, added: seq<Row>, working: seq<Row>,
                                          closure: seq<Row>, rounds: nat)
    requires base != [] && AllLike(base + closure, base[0])
    requires Covers(term, base, closure)
    requires AddsOnce(base, added)
    requires forall r :: r in added ==> Count(closure, r) > 0
    requires Within(working, r => Count(base + closure, r) > 0)
    requires rounds > |closure| - |added|
    ensures Rounds(term, base + added, working, false, rounds).Converged?
    decreases rounds
  {
    hide Count, AddsOnce, Fresh, SameShape, AllLike;
    OnceOnly(base, added);
    Pigeonhole(added, closure);
    var produced := Out(term, working);
    assert term(working).Some? && Within(produced, r => Count(base + closure, r) > 0);
    var acc := base + added;
    assert acc[0] == base[0];
    if produced != [] {
      assert produced[0] in produced;
      ShapeOf(base + closure, base[0], produced[0]);
    }
    var novel := Fresh(produced, acc, false);
    FreshCovers(produced, acc, false);
    AddsOnceNext(base, added, produced);
    if novel != [] {
      assert acc + novel == base + (added + novel);
      forall r | r in novel
        ensures Count(closure, r) > 0
      {
        NewToBase(base, closure, added, produced, r);
      }
      RoundsConverge(term, base, added + novel, novel, closure, rounds - 1);
    }
  }

  lemma OnceOnly(base: seq<Row>, added: seq<Row>)
    requires AddsOnce(base, added)
    ensures forall r :: Count(added, r) <= 1
  {
  }

  lemma ShapeOf(rows: seq<Row>, shape: Row, r: Row)
    requires AllLike(rows, shape) && Count(rows, r) > 0
    ensures SameShape(r, shape)
  {
    CountPositive(rows, r);
  }

  lemma NewToBase(base: seq<Row>, closure: seq<Row>, added: seq<Row>, produced: seq<Row>, r: Row)
    requires r in Fresh(produced, base + added, false)
    requires Count(base + closure, r) > 0
    ensures Count(closure, r) > 0
  {
    hide RowEqual, Count, Survivors;
    var novel := Fresh(produced, base + added, false);
    DifferenceCount(produced, base + added, false, r);
    CountAppend(base, added, r);
    CountAppend(base, closure, r);
    CountPositive(base + closure, r);
    var i :| 0 <= i < |base + closure| && RowEqual((base + closure)[i], r);
    RowEqualSymmetric((base + closure)[i], r);
    RowEqualTransitive(r, (base + closure)[i], r);
    CountPositive(novel, r);
  }

  /** If the closure of the base adds k rows and k + 1 rounds are allowed, the statement converges. */
  lemma {:induction false} ConvergesInTime(term: Term, base: seq<Row>, closure: seq<Row>)
    requires base != [] && AllLike(base + closure, base[0])
    requires Covers(term, base, closure) && Within(base, r => Count(base + closure, r) > 0)
    requires |closure| + 1 <= MAX_RECURSIVE_ITERS
    ensures Recursive(term, base, false).Converged?
  {
    hide Rounds, AllLike, Covers;
    assert base + [] == base;
    RoundsConverge(term, base, [], base, closure, MAX_RECURSIVE_ITERS);
  }

  // ---------------------------------------------------------------- UNION ALL

  /** The term applied n times; an error counts as no rows. */
  function Iterate(term: Term, working: seq<Row>, n: nat): seq<Row>
    decreases n
  {
    if n == 0 then working else Iterate(term, Out(term, working), n - 1)
  }

  /** The first n rounds, one after the other. */
  function Concatenated(term: Term, working: seq<Row>, n: nat): seq<Row>
    decreases n
  {
    if n == 0 then [] else Out(term, working) + Concatenated(term, Out(term, working), n - 1)
  }

  ghost predicate KeepsShape(term: Term, shape: Row) {
    forall s :: term(s).Some? && (term(s).value == [] || SameShape(term(s).value[0], shape))
  }

  /** UNION ALL returns the base, the term of the base, the term of that, and so on up to the first empty round. */
  lemma {:induction false} UnionAllConcatenates(term: Term, acc: seq<Row>, working: seq<Row>, rounds: nat)
    returns (n: nat)
    requires acc != [] && Rounds(term, acc, working, true, rounds).Converged?
    ensures n < rounds && Iterate(term, working, n + 1) == []
    ensures forall i :: 0 < i <= n ==> Iterate(term, working, i) != []
    ensures Rounds(term, acc, working, true, rounds).rows == acc + Concatenated(term, working, n)
    decreases rounds
  {
    hide SameShape;
    var novel := Out(term, working);
    if novel == [] {
      n := 0;
      assert acc + Concatenated(term, working, 0) == acc;
    } else {
      var m := UnionAllConcatenates(term, acc + novel, novel, rounds - 1);
      n := m + 1;
      assert acc + novel + Concatenated(term, novel, m) == acc + (novel + Concatenated(term, novel, m));
      forall i | 0 < i <= n
        ensures Iterate(term, working, i) == Iterate(term, novel, i - 1) != []
      {
        assert i == 1 ==> Iterate(term, novel, 0) == novel;
      }
    }
  }

  lemma {:induction false} UnionAllReaches(term: Term, acc: seq<Row>, working: seq<Row>, rounds: nat, n: nat)
    requires acc != [] && KeepsShape(term, acc[0])
    requires 0 < n <= rounds && Iterate(term, working, n) == []
    ensures Rounds(term, acc, working, true, rounds).Converged?
    decreases rounds
  {
    hide SameShape;
    var novel := Out(term, working);
    if novel != [] {
      assert Iterate(term, novel, 0) == novel;
      assert (acc + novel)[0] == acc[0];
      UnionAllReaches(term, acc + novel, novel, rounds - 1, n - 1);
    }
  }

  /** UNION ALL converges exactly when one of the first 10000 rounds produces nothing. */
  lemma UnionAllConverges(term: Term, base: seq<Row>)
    requires base != [] && KeepsShape(term, base[0])
    ensures Recursive(term, base, true).Converged?
       <==> exists n :: 0 < n <= MAX_RECURSIVE_ITERS && Iterate(term, base, n) == []
  {
    hide Rounds, Iterate, KeepsShape;
    if Recursive(term, base, true).Converged? {
      var n := UnionAllConcatenates(term, base, base, MAX_RECURSIVE_ITERS);
    }
    if n :| 0 < n <= MAX_RECURSIVE_ITERS && Iterate(term, base, n) == [] {
      UnionAllReaches(term, base, base, MAX_RECURSIVE_ITERS, n);
    }
  }
}
