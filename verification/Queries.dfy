/** What queries ask (src/types.c, src/query.c), in terms of numbers and strings. */
module Queries {
  import opened Values
  import opened RecordCodec
  import opened Storage
  import Constraints

  predicate Plainly(v: Value) {
    v.Null? || IsNumber(v) || v.Str?
  }

  /** NULL comes below everything, numbers by what they denote, strings in dictionary order. */
  predicate Below(v: Value, a: Value) {
    || (v.Null? && !a.Null?)
    || (IsNumber(v) && IsNumber(a) && ToReal(v) < ToReal(a))
    || (v.Str? && a.Str? && Earlier(v.s, a.s))
  }

  predicate Level(v: Value, a: Value) {
    || (v.Null? && a.Null?)
    || (IsNumber(v) && IsNumber(a) && ToReal(v) == ToReal(a))
    || (v.Str? && a.Str? && v.s == a.s)
  }

  predicate Holds(v: Value, op: Op, a: Value, b: Value) {
    match op
    case OpEq => Level(v, a)
    case OpNeq => Below(v, a) || Below(a, v)
    case OpGt => Below(a, v)
    case OpGte => Below(a, v) || Level(v, a)
    case OpLt => Below(v, a)
    case OpLte => Below(v, a) || Level(v, a)
    case OpBetween => (Below(a, v) || Level(v, a)) && (Below(v, b) || Level(v, b))
    case OpIsNull => v.Null?
    case OpIsNotNull => !v.Null?
    case Other(test) => test(v, a)
  }

  lemma HoldsExactly(v: Value, op: Op, a: Value, b: Value)
    requires Plainly(v) && Plainly(a) && Plainly(b)
    ensures ValueMatches(v, op, a, b) <==> Holds(v, op, a, b)
  {
    hide ToReal;
    ComparesAs(v, a);
    ComparesAs(v, b);
  }

  lemma ComparesAs(v: Value, a: Value)
    requires Plainly(v) && Plainly(a)
    ensures Compare(v, a) == Less <==> Below(v, a)
    ensures Compare(v, a) == Greater <==> Below(a, v)
    ensures Compare(v, a) == Equal <==> Level(v, a)
  {
    hide ToReal;
    if v.Str? && a.Str? {
      StringsCompare(v.s, a.s);
    }
  }

  /** A row has no such field, and the filter asks for NULL; or the value it has is as the filter demands. */
  predicate Satisfies(r: Record, f: Filter) {
    match Operand(r, f.col)
    case None => f.op.OpIsNull?
    case Some(v) => Holds(v, f.op, f.value, f.value2)
  }

  ghost predicate PlainlyAsked(q: Query, r: Record) {
    forall g, f :: g in q && f in g ==>
      Plainly(f.value) && Plainly(f.value2) && (Operand(r, f.col).Some? ==> Plainly(Operand(r, f.col).value))
  }

  /** A query returns exactly the live records of which every filter of some group holds. */
  lemma {:induction false} ReturnedExactly(rs: seq<Record>, q: Query, r: Record)
    requires PlainlyAsked(q, r)
    ensures r in Select(rs, q) <==>
      r in rs && r.deleted == 0 && (q == [] || exists g :: g in q && forall f :: f in g ==> Satisfies(r, f))
  {
    hide ValueMatches, Holds, Plainly, Operand;
    InSelect(rs, q, r);
    forall g, f | g in q && f in g
      ensures FilterMatches(f, r) <==> Satisfies(r, f)
    {
      if Operand(r, f.col).Some? {
        HoldsExactly(Operand(r, f.col).value, f.op, f.value, f.value2);
      }
    }
    forall g | g in q
      ensures GroupMatches(g, r) <==> forall f :: f in g ==> Satisfies(r, f)
    {
      assert forall j :: 0 <= j < |g| ==> g[j] in g;
    }
    assert forall i :: 0 <= i < |q| ==> q[i] in q;
  }

  lemma {:induction false} InSelect(rs: seq<Record>, q: Query, r: Record)
    ensures r in Select(rs, q) <==> r in rs && Matches(q, r)
  {
    hide Matches;
    if rs != [] {
      InSelect(rs[1..], q, r);
    }
  }

  /** In file order, each as often as it is there. */
  lemma {:induction false} SelectInOrder(a: seq<Record>, b: seq<Record>, q: Query)
    ensures Select(a + b, q) == Select(a, q) + Select(b, q)
  {
    hide Matches;
    if a == [] {
      assert a + b == b;
    } else {
      var rest := a[1..] + b;
      assert a + b == [a[0]] + rest;
      SelectInOrder(a[1..], b, q);
      SelectFirst(a[0], rest, q);
      SelectFirst(a[0], a[1..], q);
      assert a == [a[0]] + a[1..];
    }
  }

  lemma SelectFirst(r: Record, rest: seq<Record>, q: Query)
    ensures Select([r] + rest, q) == (if Matches(q, r) then [r] else []) + Select(rest, q)
  {
    hide Matches;
    assert ([r] + rest)[1..] == rest;
  }

  /** Comparisons of a stored integer, for integers that are doubles: those of the integers themselves. */
  lemma IntegersCompared(v: int, a: int, b: int)
    requires -TWO_53 <= v <= TWO_53 && -TWO_53 <= a <= TWO_53 && -TWO_53 <= b <= TWO_53
    ensures Holds(Int(v), OpEq, Int(a), Int(b)) <==> v == a
    ensures Holds(Int(v), OpNeq, Int(a), Int(b)) <==> v != a
    ensures Holds(Int(v), OpGt, Int(a), Int(b)) <==> v > a
    ensures Holds(Int(v), OpGte, Int(a), Int(b)) <==> v >= a
    ensures Holds(Int(v), OpLt, Int(a), Int(b)) <==> v < a
    ensures Holds(Int(v), OpLte, Int(a), Int(b)) <==> v <= a
    ensures Holds(Int(v), OpBetween, Int(a), Int(b)) <==> a <= v <= b
  {
    hide DoubleOf;
    Doubles(0);
    DoubleIsNearest(v, 0);
    DoubleIsNearest(a, 0);
    DoubleIsNearest(b, 0);
  }

  // ---------------------------------------------------------------- DELETE, UPDATE, CHECK

  ghost predicate Asked(q: Query, r: Record) {
    q == [] || exists g :: g in q && forall f :: f in g ==> Satisfies(r, f)
  }

  lemma AskedExactly(q: Query, r: Record)
    requires PlainlyAsked(q, r) && r.deleted == 0
    ensures Matches(q, r) <==> Asked(q, r)
  {
    hide Matches, Satisfies, Plainly, Operand;
    ReturnedExactly([r], q, r);
    InSelect([r], q, r);
    assert r in [r];
  }

  ghost predicate AllAskedPlainly(rs: seq<Record>, q: Query) {
    forall r :: r in rs ==> r.deleted == 0 && PlainlyAsked(q, r)
  }

  /** A DELETE removes exactly the records of which every filter of some group holds; the others stay in order. */
  lemma {:induction false} DeletedExactly(a: seq<Record>, b: seq<Record>, r: Record, q: Query)
    requires AllAskedPlainly(a + [r] + b, q)
    ensures Rewritten(Delete(q), a + [r] + b)
         == Rewritten(Delete(q), a) + (if Asked(q, r) then [] else [r]) + Rewritten(Delete(q), b)
    ensures Rewritten(Delete(q), []) == []
    decreases |b|
  {
    hide Matches, Asked, PlainlyAsked;
    var t := Delete(q);
    assert r in a + [r] + b;
    AskedExactly(q, r);
    if b == [] {
      assert a + [r] + b == a + [r];
      RewrittenAppend(t, a, r);
    } else {
      var front, last := b[..|b| - 1], b[|b| - 1];
      assert b == front + [last] && a + [r] + b == (a + [r] + front) + [last];
      assert forall x :: x in a + [r] + front ==> x in a + [r] + b;
      DeletedExactly(a, front, r, q);
      RewrittenAppend(t, a + [r] + front, last);
      RewrittenAppend(t, front, last);
    }
  }

  /** An UPDATE gives exactly those records the patch's values and the time, and leaves the others alone. */
  lemma {:induction false} UpdatedExactly(rs: seq<Record>, q: Query, patch: seq<Field>, now: nat, i: nat, col: string)
    requires AllAskedPlainly(rs, q) && i < |rs| && Constraints.DistinctNames(patch)
    ensures var out := Rewritten(Update(q, patch, now), rs);
      && |out| == |rs|
      && (!Asked(q, rs[i]) ==> out[i] == rs[i])
      && (Asked(q, rs[i]) ==>
            && GetField(out[i].fields, col)
               == (if GetField(patch, col).Some? then GetField(patch, col) else GetField(rs[i].fields, col))
            && out[i].updatedAt == now && out[i].id == rs[i].id && out[i].createdAt == rs[i].createdAt)
  {
    hide Matches, Asked, PlainlyAsked;
    assert rs[i] in rs;
    AskedExactly(q, rs[i]);
    Constraints.RewrittenUpdate(Update(q, patch, now), rs);
    Constraints.GetAfterSetAll(rs[i].fields, patch, col);
  }

  /** A CHECK holds of a row without a value, and of one whose value is as it demands. */
  lemma CheckMeans(k: Constraints.Check, r: Record)
    requires Plainly(k.literal) && (Constraints.HasValue(r, k.col) ==> Plainly(GetField(r.fields, k.col).value))
    ensures Constraints.Holds(k, r) <==>
      match GetField(r.fields, k.col)
      case None => true
      case Some(v) => v.Null? || Holds(v, k.op, k.literal, Null)
  {
    if Constraints.HasValue(r, k.col) {
      HoldsExactly(GetField(r.fields, k.col).value, k.op, k.literal, Null);
    }
  }
}
