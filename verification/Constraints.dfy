/** NOT NULL, UNIQUE, CHECK and DEFAULT over a stored table (src/table.c). The schema is fixed. */
module Constraints {
  import opened Values
  import opened RecordCodec
  import opened Storage

  datatype Column = Column(name: string, nullable: bool, unique: bool, default: Option<Value>)

  datatype Check = Check(col: string, op: Op, literal: Value)

  datatype Schema = Schema(columns: seq<Column>, checks: seq<Check>)

  /** UNIQUE compares stored fields, and queries would read a pseudo-column instead. */
  predicate SparesPseudoColumns(s: Schema) {
    forall c :: 0 <= c < |s.columns| ==> s.columns[c].name !in ["id", "created_at", "updated_at"]
  }

  // ---------------------------------------------------------------- what a table must satisfy

  predicate HasValue(r: Record, col: string) {
    var v := GetField(r.fields, col);
    v.Some? && !v.value.Null?
  }

  /** NULLs never clash; values clash when they compare equal. */
  predicate Clash(a: Record, b: Record, col: string) {
    HasValue(a, col) && HasValue(b, col) && Eq(GetField(a.fields, col).value, GetField(b.fields, col).value)
  }

  /** NULL never violates a CHECK. */
  predicate Holds(k: Check, r: Record) {
    HasValue(r, k.col) ==> ValueMatches(GetField(r.fields, k.col).value, k.op, k.literal, Null)
  }

  /** What a row owes by itself. */
  predicate RowOk(s: Schema, r: Record) {
    && (forall c :: 0 <= c < |s.columns| && !s.columns[c].nullable ==> HasValue(r, s.columns[c].name))
    && (forall k :: 0 <= k < |s.checks| ==> Holds(s.checks[k], r))
  }

  predicate Compatible(s: Schema, a: Record, b: Record) {
    forall c :: 0 <= c < |s.columns| && s.columns[c].unique ==> !Clash(a, b, s.columns[c].name)
  }

  predicate Satisfies(s: Schema, rs: seq<Record>) {
    && (forall i :: 0 <= i < |rs| ==> RowOk(s, rs[i]))
    && (forall i, j :: 0 <= i < j < |rs| ==> Compatible(s, rs[i], rs[j]))
  }

  lemma ClashSymmetric(a: Record, b: Record, col: string)
    ensures Clash(a, b, col) <==> Clash(b, a, col)
  {
    if HasValue(a, col) && HasValue(b, col) {
      EqSymmetric(GetField(a.fields, col).value, GetField(b.fields, col).value);
    }
  }

  lemma CompatibleSymmetric(s: Schema, a: Record, b: Record)
    ensures Compatible(s, a, b) <==> Compatible(s, b, a)
  {
    hide Clash;
    forall c | 0 <= c < |s.columns|
      ensures Clash(a, b, s.columns[c].name) <==> Clash(b, a, s.columns[c].name)
    {
      ClashSymmetric(a, b, s.columns[c].name);
    }
  }

  // ---------------------------------------------------------------- operations on the records

  /** A DEFAULT fills in a field that is missing, not one that is NULL. */
  function WithDefaults(columns: seq<Column>, fields: seq<Field>): seq<Field>
    decreases |columns|
  {
    if columns == [] then fields
    else
      var c := columns[0];
      WithDefaults(columns[1..], if c.default.Some? && GetField(fields, c.name).None?
                                 then SetField(fields, c.name, c.default.value) else fields)
  }

  /** A field that is there stays; one that is not gets the DEFAULT of the first column of its name that has one. */
  lemma {:induction false} DefaultsMean(columns: seq<Column>, fields: seq<Field>, col: string)
    ensures var out := GetField(WithDefaults(columns, fields), col);
      && (GetField(fields, col).Some? ==> out == GetField(fields, col))
      && (GetField(fields, col).None? ==>
            && ((forall i :: 0 <= i < |columns| && columns[i].name == col ==> columns[i].default.None?) ==> out.None?)
            && forall i :: 0 <= i < |columns| && FirstDefault(columns, col, i) ==> out == columns[i].default)
    decreases |columns|
  {
    if columns != [] {
      var c, rest := columns[0], columns[1..];
      var filled := if c.default.Some? && GetField(fields, c.name).None?
                    then SetField(fields, c.name, c.default.value) else fields;
      if c.default.Some? {
        GetAfterSet(fields, c.name, c.default.value, col);
      }
      DefaultsMean(rest, filled, col);
      assert forall i :: 0 < i < |columns| ==> columns[i] == rest[i - 1];
      assert forall i :: 0 <= i < |rest| ==> rest[i] == columns[i + 1];
      forall i | 0 < i < |columns| && FirstDefault(columns, col, i)
        ensures FirstDefault(rest, col, i - 1)
      {
        assert columns[0].name != col || columns[0].default.None?;
      }
    }
  }

  predicate FirstDefault(columns: seq<Column>, col: string, i: nat)
    requires i < |columns|
  {
    columns[i].name == col && columns[i].default.Some?
    && forall j :: 0 <= j < i ==> columns[j].name != col || columns[j].default.None?
  }

  function Completed(s: Schema, r: Record): Record {
    r.(fields := WithDefaults(s.columns, r.fields))
  }

  predicate InsertAllowed(s: Schema, rs: seq<Record>, r: Record) {
    RowOk(s, r) && forall i :: 0 <= i < |rs| ==> Compatible(s, rs[i], r)
  }

  function AfterInsert(s: Schema, rs: seq<Record>, r: Record, id: nat): seq<Record> {
    if InsertAllowed(s, rs, Completed(s, r)) && |rs| < MAX_RECORDS then rs + [Completed(s, r).(id := id)] else rs
  }

  /** A batch stops at the first row that is refused; the rows before it stay. */
  function AfterBatch(s: Schema, rs: seq<Record>, batch: seq<Record>, id: nat): seq<Record>
    decreases |batch|
  {
    if batch == [] then rs
    else
      var next := AfterInsert(s, rs, batch[0], id);
      if next == rs then rs else AfterBatch(s, next, batch[1..], id + 1)
  }

  predicate DistinctNames(fields: seq<Field>) {
    forall i, j :: 0 <= i < j < |fields| ==> fields[i].name != fields[j].name
  }

  /** The effective value the UPDATE check compares. */
  function Effective(q: Query, patch: seq<Field>, r: Record, col: string): Option<Value> {
    if Matches(q, r) && GetField(patch, col).Some? then GetField(patch, col) else GetField(r.fields, col)
  }

  lemma {:induction false} GetAfterSet(fields: seq<Field>, name: string, v: Value, col: string)
    ensures GetField(SetField(fields, name, v), col) == if col == name then Some(v) else GetField(fields, col)
  {
    if fields != [] && fields[0].name != name {
      GetAfterSet(fields[1..], name, v, col);
    }
  }

  lemma {:induction false} GetAfterSetAll(fields: seq<Field>, patch: seq<Field>, col: string)
    requires DistinctNames(patch)
    ensures GetField(SetFields(fields, patch), col)
         == if GetField(patch, col).Some? then GetField(patch, col) else GetField(fields, col)
    decreases |patch|
  {
    if patch != [] {
      var name, v := patch[0].name, patch[0].value;
      GetAfterSet(fields, name, v, col);
      GetAfterSetAll(SetField(fields, name, v), patch[1..], col);
      if col == name {
        NotNamed(patch[1..], name);
      }
    }
  }

  lemma {:induction false} NotNamed(fields: seq<Field>, name: string)
    requires forall i :: 0 <= i < |fields| ==> fields[i].name != name
    ensures GetField(fields, name).None?
  {
    if fields != [] {
      NotNamed(fields[1..], name);
    }
  }

  lemma EffectiveIsNew(q: Query, patch: seq<Field>, now: nat, r: Record, col: string)
    requires DistinctNames(patch)
    ensures GetField(Transformed(Update(q, patch, now), r).fields, col) == Effective(q, patch, r, col)
  {
    hide Matches;
    GetAfterSetAll(r.fields, patch, col);
  }

  function After(t: Transform, rs: seq<Record>): (out: seq<Record>)
    ensures |out| == |rs|
  {
    seq(|rs|, i requires 0 <= i < |rs| => Transformed(t, rs[i]))
  }

  /** The check of one column over the rows an UPDATE matches. */
  predicate ColumnOk(c: Column, q: Query, rs: seq<Record>, after: seq<Record>)
    requires |rs| == |after|
  {
    forall i :: 0 <= i < |rs| && Matches(q, rs[i]) ==>
      && (!c.nullable ==> HasValue(after[i], c.name))
      && (c.unique ==> forall j :: 0 <= j < |rs| && j != i ==> !Clash(after[i], after[j], c.name))
  }

  predicate CheckOk(k: Check, q: Query, rs: seq<Record>, after: seq<Record>)
    requires |rs| == |after|
  {
    forall i :: 0 <= i < |rs| && Matches(q, rs[i]) ==> Holds(k, after[i])
  }

  predicate UpdateAllowed(s: Schema, q: Query, rs: seq<Record>, after: seq<Record>)
    requires |rs| == |after|
  {
    && (forall c :: 0 <= c < |s.columns| ==> ColumnOk(s.columns[c], q, rs, after))
    && (forall k :: 0 <= k < |s.checks| ==> CheckOk(s.checks[k], q, rs, after))
  }

  function AfterUpdate(s: Schema, rs: seq<Record>, q: Query, patch: seq<Field>, now: nat): seq<Record> {
    var t := Update(q, patch, now);
    if UpdateAllowed(s, q, rs, After(t, rs)) then Rewritten(t, rs) else rs
  }

  // ---------------------------------------------------------------- the operations keep the constraints

  lemma InsertKeeps(s: Schema, rs: seq<Record>, r: Record, id: nat)
    requires Satisfies(s, rs)
    ensures Satisfies(s, AfterInsert(s, rs, r, id))
  {
    hide RowOk, Compatible;
    var done := Completed(s, r);
    IdDoesNotMatter(s, done, id);
    forall i | 0 <= i < |rs|
      ensures Compatible(s, rs[i], done.(id := id)) <==> Compatible(s, rs[i], done)
    {
      IdDoesNotClash(s, rs[i], done, id);
    }
  }

  /** An INSERT is refused exactly when the row would break a constraint. */
  lemma InsertAllowedExactly(s: Schema, rs: seq<Record>, r: Record)
    requires Satisfies(s, rs)
    ensures InsertAllowed(s, rs, r) <==> Satisfies(s, rs + [r])
  {
    hide RowOk, Compatible;
    var all := rs + [r];
    assert all[|rs|] == r && forall i :: 0 <= i < |rs| ==> all[i] == rs[i];
    if Satisfies(s, all) {
      assert RowOk(s, all[|rs|]);
      assert forall i :: 0 <= i < |rs| ==> Compatible(s, all[i], all[|rs|]);
    }
  }

  lemma IdDoesNotMatter(s: Schema, r: Record, id: nat)
    ensures RowOk(s, r.(id := id)) <==> RowOk(s, r)
  {
    assert forall col :: HasValue(r.(id := id), col) <==> HasValue(r, col);
  }

  lemma IdDoesNotClash(s: Schema, a: Record, b: Record, id: nat)
    ensures Compatible(s, a, b.(id := id)) <==> Compatible(s, a, b)
  {
    assert forall col :: Clash(a, b.(id := id), col) <==> Clash(a, b, col);
  }

  lemma {:induction false} BatchKeeps(s: Schema, rs: seq<Record>, batch: seq<Record>, id: nat)
    requires Satisfies(s, rs)
    ensures Satisfies(s, AfterBatch(s, rs, batch, id))
    decreases |batch|
  {
    hide Satisfies, AfterInsert;
    if batch != [] {
      InsertKeeps(s, rs, batch[0], id);
      BatchKeeps(s, AfterInsert(s, rs, batch[0], id), batch[1..], id + 1);
    }
  }

  ghost predicate Live(rs: seq<Record>) {
    forall i :: 0 <= i < |rs| ==> rs[i].deleted == 0
  }

  lemma {:induction false} RewrittenUpdate(t: Transform, rs: seq<Record>)
    requires t.Update? && Live(rs)
    ensures Rewritten(t, rs) == After(t, rs) && Live(After(t, rs))
  {
    hide Matches;
    if rs != [] {
      RewrittenUpdate(t, rs[1..]);
      assert After(t, rs) == [Transformed(t, rs[0])] + After(t, rs[1..]);
      assert Live(rs) ==> Transformed(t, rs[0]).deleted == 0;
    }
  }

  /** The check refuses an UPDATE exactly when it would break a constraint. */
  lemma {:induction false} UpdateAllowedExactly(s: Schema, rs: seq<Record>, q: Query, patch: seq<Field>, now: nat)
    requires Satisfies(s, rs) && Live(rs)
    ensures UpdateAllowed(s, q, rs, After(Update(q, patch, now), rs))
       <==> Satisfies(s, Rewritten(Update(q, patch, now), rs))
  {
    hide Matches, Clash, Holds, HasValue, Rewritten;
    var t := Update(q, patch, now);
    var after := After(t, rs);
    RewrittenUpdate(t, rs);
    assert forall i :: 0 <= i < |rs| && !Matches(q, rs[i]) ==> after[i] == rs[i];
    if UpdateAllowed(s, q, rs, after) {
      forall i | 0 <= i < |rs|
        ensures RowOk(s, after[i])
      {
        if Matches(q, rs[i]) {
          AllowedRow(s, q, rs, after, i);
        }
      }
      forall i, j | 0 <= i < j < |rs|
        ensures Compatible(s, after[i], after[j])
      {
        if Matches(q, rs[i]) {
          AllowedPair(s, q, rs, after, i, j);
        } else if Matches(q, rs[j]) {
          AllowedPair(s, q, rs, after, j, i);
          CompatibleSymmetric(s, after[i], after[j]);
        }
      }
    }
    if Satisfies(s, after) {
      forall c, i, j | 0 <= c < |s.columns| && s.columns[c].unique && 0 <= i < |rs| && 0 <= j < |rs| && i != j
        ensures !Clash(after[i], after[j], s.columns[c].name)
      {
        ClashSymmetric(after[i], after[j], s.columns[c].name);
        assert Compatible(s, after[if i < j then i else j], after[if i < j then j else i]);
      }
    }
  }

  lemma AllowedRow(s: Schema, q: Query, rs: seq<Record>, after: seq<Record>, i: nat)
    requires |rs| == |after| && i < |rs| && Matches(q, rs[i]) && UpdateAllowed(s, q, rs, after)
    ensures RowOk(s, after[i])
  {
    hide Matches, Clash, Holds, HasValue;
    forall c | 0 <= c < |s.columns| && !s.columns[c].nullable
      ensures HasValue(after[i], s.columns[c].name)
    {
      assert ColumnOk(s.columns[c], q, rs, after);
    }
    forall k | 0 <= k < |s.checks|
      ensures Holds(s.checks[k], after[i])
    {
      assert CheckOk(s.checks[k], q, rs, after);
    }
  }

  lemma AllowedPair(s: Schema, q: Query, rs: seq<Record>, after: seq<Record>, i: nat, j: nat)
    requires |rs| == |after| && i < |rs| && j < |rs| && i != j
    requires Matches(q, rs[i]) && UpdateAllowed(s, q, rs, after)
    ensures Compatible(s, after[i], after[j])
  {
    hide Matches, Clash, Holds, HasValue;
    forall c | 0 <= c < |s.columns| && s.columns[c].unique
      ensures !Clash(after[i], after[j], s.columns[c].name)
    {
      assert ColumnOk(s.columns[c], q, rs, after);
    }
  }

  lemma {:induction false} FewerRows(t: Transform, rs: seq<Record>, r: Record)
    requires !t.Update? && Live(rs) && r in Rewritten(t, rs)
    ensures r in rs
  {
    hide Matches;
    if r in Rewritten(t, rs[1..]) {
      FewerRows(t, rs[1..], r);
    }
  }

  /** Dropping rows breaks nothing. */
  lemma {:induction false} RemovalKeeps(s: Schema, t: Transform, rs: seq<Record>)
    requires !t.Update? && Live(rs) && Satisfies(s, rs)
    ensures Satisfies(s, Rewritten(t, rs)) && Live(Rewritten(t, rs))
  {
    hide Matches, RowOk, Compatible;
    if rs != [] {
      RemovalKeeps(s, t, rs[1..]);
      var rest, out := Rewritten(t, rs[1..]), Rewritten(t, rs);
      if Transformed(t, rs[0]).deleted == 0 {
        assert out == [rs[0]] + rest;
        forall j | 0 < j < |out|
          ensures Compatible(s, rs[0], out[j])
        {
          FewerRows(t, rs[1..], rest[j - 1]);
          var k :| 0 <= k < |rs[1..]| && rs[1..][k] == rest[j - 1];
          assert rs[k + 1] == out[j];
        }
      }
    }
  }

  // ---------------------------------------------------------------- whole runs

  datatype Step = InsertRow(r: Record) | InsertRows(batch: seq<Record>)
                | UpdateRows(q: Query, patch: seq<Field>, now: nat) | DeleteRows(q: Query) | Compact

  /** A table's records and the next id. */
  datatype State = State(rs: seq<Record>, id: nat)

  function Done(s: Schema, state: State, step: Step): State {
    match step
    case InsertRow(r) =>
      var rs := AfterInsert(s, state.rs, r, state.id);
      State(rs, state.id + Difference(rs, state.rs))
    case InsertRows(batch) =>
      var rs := AfterBatch(s, state.rs, batch, state.id);
      State(rs, state.id + Difference(rs, state.rs))
    case UpdateRows(q, patch, now) => State(AfterUpdate(s, state.rs, q, patch, now), state.id)
    case DeleteRows(q) => State(Rewritten(Delete(q), state.rs), state.id)
    case Compact => State(Rewritten(Keep, state.rs), state.id)
  }

  function Difference(a: seq<Record>, b: seq<Record>): nat {
    if |a| < |b| then 0 else |a| - |b|
  }

  function Ran(s: Schema, state: State, steps: seq<Step>): State
    decreases |steps|
  {
    if steps == [] then state else Ran(s, Done(s, state, steps[0]), steps[1..])
  }

  predicate StartsLive(step: Step) {
    match step
    case InsertRow(r) => r.deleted == 0
    case InsertRows(batch) => forall i :: 0 <= i < |batch| ==> batch[i].deleted == 0
    case _ => true
  }

  lemma {:induction false} InsertsLive(s: Schema, rs: seq<Record>, batch: seq<Record>, id: nat)
    requires Live(rs) && forall i :: 0 <= i < |batch| ==> batch[i].deleted == 0
    ensures Live(AfterBatch(s, rs, batch, id))
    decreases |batch|
  {
    hide InsertAllowed;
    if batch != [] {
      InsertsLive(s, AfterInsert(s, rs, batch[0], id), batch[1..], id + 1);
    }
  }

  /** Whatever is inserted, updated and deleted, successfully or not, the constraints hold after every run. */
  lemma {:induction false} RunKeeps(s: Schema, state: State, steps: seq<Step>)
    requires Satisfies(s, state.rs) && Live(state.rs)
    requires forall i :: 0 <= i < |steps| ==> StartsLive(steps[i])
    ensures Satisfies(s, Ran(s, state, steps).rs) && Live(Ran(s, state, steps).rs)
    decreases |steps|
  {
    hide Satisfies, InsertAllowed, UpdateAllowed, Rewritten;
    if steps != [] {
      var step := steps[0];
      assert StartsLive(step);
      match step {
        case InsertRow(r) =>
          InsertKeeps(s, state.rs, r, state.id);
        case InsertRows(batch) =>
          BatchKeeps(s, state.rs, batch, state.id);
          InsertsLive(s, state.rs, batch, state.id);
        case UpdateRows(q, patch, now) =>
          UpdateAllowedExactly(s, state.rs, q, patch, now);
          RewrittenUpdate(Update(q, patch, now), state.rs);
        case DeleteRows(q) =>
          RemovalKeeps(s, Delete(q), state.rs);
        case Compact =>
          RemovalKeeps(s, Keep, state.rs);
      }
      RunKeeps(s, Done(s, state, step), steps[1..]);
    }
  }

  // ---------------------------------------------------------------- the checks as they run

  function EqualTo(col: string, v: Value): Query {
    [[Filter(col, OpEq, v, Null)]]
  }

  /** The count query of the UNIQUE check finds the rows that clash. */
  lemma EqualToFinds(stored: Record, r: Record, col: string)
    requires col !in ["id", "created_at", "updated_at"] && stored.deleted == 0 && HasValue(r, col)
    ensures Matches(EqualTo(col, GetField(r.fields, col).value), stored) <==> Clash(stored, r, col)
  {
    var v := GetField(r.fields, col).value;
    var q := EqualTo(col, v);
    assert Pseudo(stored, col).None?;
    assert GroupMatches(q[0], stored) <==> FilterMatches(q[0][0], stored);
  }

  lemma {:induction false} NoneSelected(rs: seq<Record>, q: Query)
    ensures Select(rs, q) == [] <==> forall i :: 0 <= i < |rs| ==> !Matches(q, rs[i])
  {
    hide Matches;
    if rs != [] {
      NoneSelected(rs[1..], q);
      assert forall i :: 0 < i < |rs| ==> rs[i] == rs[1..][i - 1];
      assert forall i :: 0 <= i < |rs[1..]| ==> rs[1..][i] == rs[i + 1];
    }
  }

  const EVERYTHING: Query := [[]]

  lemma {:induction false} AllSelected(rs: seq<Record>)
    requires Live(rs)
    ensures Select(rs, EVERYTHING) == rs
  {
    if rs != [] {
      AllSelected(rs[1..]);
      assert GroupMatches(EVERYTHING[0], rs[0]);
    }
  }

  class ConstrainedTable {
    const schema: Schema
    const table: Table

    ghost predicate Valid()
      reads table, set i | 0 <= i < |table.indices| :: table.indices[i].buckets
    {
      table.Valid() && SparesPseudoColumns(schema) && Satisfies(schema, table.records)
    }

    constructor (schema: Schema, table: Table)
      requires table.Valid() && SparesPseudoColumns(schema) && Satisfies(schema, table.records)
      ensures Valid() && this.schema == schema && this.table == table
    {
      this.schema, this.table := schema, table;
    }

    /** table.c `kdb_table_apply_defaults`. */
    method ApplyDefaults(r: Record) returns (out: Record)
      ensures out == Completed(schema, r)
    {
      var fields, i := r.fields, 0;
      while i < |schema.columns|
        invariant 0 <= i <= |schema.columns|
        invariant WithDefaults(schema.columns[i..], fields) == WithDefaults(schema.columns, r.fields)
      {
        var c := schema.columns[i];
        assert schema.columns[i..][1..] == schema.columns[i + 1..];
        if c.default.Some? && GetField(fields, c.name).None? {
          fields := SetField(fields, c.name, c.default.value);
        }
        i := i + 1;
      }
      out := r.(fields := fields);
    }

    /** table.c `kdb_table_check_insert_constraints`. */
    method CheckInsert(r: Record) returns (ok: bool)
      requires table.Valid() && SparesPseudoColumns(schema)
      ensures ok <==> InsertAllowed(schema, table.records, r)
    {
      hide Matches, Clash, Holds, HasValue, Table.Valid, Table.Stored, EqualTo;
      ghost var rs := table.records;
      StoredAndLive();
      var i := 0;
      while i < |schema.columns|
        invariant 0 <= i <= |schema.columns|
        invariant forall c :: 0 <= c < i && !schema.columns[c].nullable ==> HasValue(r, schema.columns[c].name)
        invariant forall c, k :: 0 <= c < i && schema.columns[c].unique && 0 <= k < |rs| ==>
          !Clash(rs[k], r, schema.columns[c].name)
      {
        var col := schema.columns[i];
        if !col.nullable && !HasValue(r, col.name) {
          return false;
        }
        NullNeverClashes(r, col.name);
        if col.unique && HasValue(r, col.name) {
          var found := table.ScanSelect(EqualTo(col.name, GetField(r.fields, col.name).value));
          Clashing(rs, r, col.name);
          if |found| > 0 {
            ghost var k :| 0 <= k < |rs| && Clash(rs[k], r, col.name);
            assert !Compatible(schema, rs[k], r);
            return false;
          }
        }
        i := i + 1;
      }
      i := 0;
      while i < |schema.checks|
        invariant 0 <= i <= |schema.checks|
        invariant forall k :: 0 <= k < i ==> Holds(schema.checks[k], r)
      {
        if !Holds(schema.checks[i], r) {
          return false;
        }
        i := i + 1;
      }
      return true;
    }

    lemma StoredAndLive()
      requires table.Valid()
      ensures table.Stored() && Live(table.records)
    {
    }

    lemma NullNeverClashes(r: Record, col: string)
      ensures HasValue(r, col) ==> GetField(r.fields, col).Some?
      ensures !HasValue(r, col) ==> forall a: Record :: !Clash(a, r, col)
    {
    }

    lemma Clashing(rs: seq<Record>, r: Record, col: string)
      requires Live(rs) && col !in ["id", "created_at", "updated_at"] && HasValue(r, col)
      ensures Select(rs, EqualTo(col, GetField(r.fields, col).value)) == []
         <==> forall k :: 0 <= k < |rs| ==> !Clash(rs[k], r, col)
    {
      hide Matches, Clash;
      var q := EqualTo(col, GetField(r.fields, col).value);
      NoneSelected(rs, q);
      forall k | 0 <= k < |rs|
        ensures Matches(q, rs[k]) <==> Clash(rs[k], r, col)
      {
        EqualToFinds(rs[k], r, col);
      }
    }

    /** A value found in the patch first, else in the row (the effective value of a matched row). */
    method CheckColumn(c: Column, q: Query, rows: seq<Record>, patch: seq<Field>, now: nat) returns (ok: bool)
      requires DistinctNames(patch)
      ensures ok <==> ColumnOk(c, q, rows, After(Update(q, patch, now), rows))
    {
      hide Matches, Eq;
      ghost var after := After(Update(q, patch, now), rows);
      if c.nullable && !c.unique {
        return true;
      }
      var i := 0;
      while i < |rows|
        invariant 0 <= i <= |rows|
        invariant forall k :: 0 <= k < i && Matches(q, rows[k]) ==>
          && (!c.nullable ==> HasValue(after[k], c.name))
          && (c.unique ==> forall j :: 0 <= j < |rows| && j != k ==> !Clash(after[k], after[j], c.name))
      {
        var hit := TestQuery(q, rows[i]);
        if hit {
          EffectiveIsNew(q, patch, now, rows[i], c.name);
          var vi := Effective(q, patch, rows[i], c.name);
          var isNull := vi.None? || vi.value.Null?;
          if !c.nullable && isNull {
            return false;
          }
          if c.unique && !isNull {
            var j := 0;
            while j < |rows|
              invariant 0 <= j <= |rows|
              invariant forall k :: 0 <= k < j && k != i ==> !Clash(after[i], after[k], c.name)
            {
              if j != i {
                EffectiveIsNew(q, patch, now, rows[j], c.name);
                var vj := Effective(q, patch, rows[j], c.name);
                if vj.Some? && !vj.value.Null? && Eq(vi.value, vj.value) {
                  assert Clash(after[i], after[j], c.name);
                  return false;
                }
              }
              j := j + 1;
            }
          }
        }
        i := i + 1;
      }
      return true;
    }

    method CheckRows(k: Check, q: Query, rows: seq<Record>, patch: seq<Field>, now: nat) returns (ok: bool)
      requires DistinctNames(patch)
      ensures ok <==> CheckOk(k, q, rows, After(Update(q, patch, now), rows))
    {
      hide Matches, ValueMatches;
      ghost var after := After(Update(q, patch, now), rows);
      var i := 0;
      while i < |rows|
        invariant 0 <= i <= |rows|
        invariant forall j :: 0 <= j < i && Matches(q, rows[j]) ==> Holds(k, after[j])
      {
        var hit := TestQuery(q, rows[i]);
        if hit {
          EffectiveIsNew(q, patch, now, rows[i], k.col);
          var vi := Effective(q, patch, rows[i], k.col);
          if vi.Some? && !vi.value.Null? && !ValueMatches(vi.value, k.op, k.literal, Null) {
            return false;
          }
        }
        i := i + 1;
      }
      return true;
    }

    /** table.c `kdb_table_check_update_constraints`. */
    method CheckUpdate(q: Query, patch: seq<Field>, now: nat) returns (ok: bool)
      requires table.Valid() && DistinctNames(patch)
      ensures ok <==> UpdateAllowed(schema, q, table.records, After(Update(q, patch, now), table.records))
    {
      hide ColumnOk, CheckOk, Matches;
      ghost var rs, after := table.records, After(Update(q, patch, now), table.records);
      var rows := table.ScanSelect(EVERYTHING);
      AllSelected(rs);
      var i := 0;
      while i < |schema.columns|
        invariant 0 <= i <= |schema.columns|
        invariant forall c :: 0 <= c < i ==> ColumnOk(schema.columns[c], q, rs, after)
      {
        var one := CheckColumn(schema.columns[i], q, rows, patch, now);
        if !one {
          return false;
        }
        i := i + 1;
      }
      i := 0;
      while i < |schema.checks|
        invariant 0 <= i <= |schema.checks|
        invariant forall k :: 0 <= k < i ==> CheckOk(schema.checks[k], q, rs, after)
      {
        var one := CheckRows(schema.checks[i], q, rows, patch, now);
        if !one {
          return false;
        }
        i := i + 1;
      }
      return true;
    }

    /** table.c `kdb_table_insert`. */
    method Insert(r: Record) returns (st: Status)
      requires Valid() && r.deleted == 0 && FitsFrame(Completed(schema, r).(id := table.nextId))
      modifies table.Footprint()
      ensures Valid()
      ensures table.records == AfterInsert(schema, old(table.records), r, old(table.nextId))
      ensures st == Ok <==>
              Satisfies(schema, old(table.records) + [Completed(schema, r)]) && |old(table.records)| < MAX_RECORDS
      ensures st == Ok <==> table.records != old(table.records)
      ensures table.nextId == old(table.nextId) + if st == Ok then 1 else 0
    {
      hide InsertAllowed, Satisfies, FitsFrame;
      InsertAllowedExactly(schema, table.records, Completed(schema, r));
      InsertKeeps(schema, table.records, r, table.nextId);
      var done := ApplyDefaults(r);
      var ok := CheckInsert(done);
      ghost var before := table.records;
      st := table.Insert(done, !ok);
      assert st == Ok ==> |table.records| == |before| + 1;
    }

    /** table.c `kdb_table_insert_batch`. */
    method InsertBatch(batch: seq<Record>) returns (st: Status, inserted: nat)
      requires Valid() && forall i :: 0 <= i < |batch| ==> batch[i].deleted == 0
      requires forall i :: 0 <= i < |batch| ==> FitsFrame(Completed(schema, batch[i]).(id := table.nextId + i))
      modifies table.Footprint()
      ensures Valid()
      ensures table.records == AfterBatch(schema, old(table.records), batch, old(table.nextId))
      ensures |table.records| == |old(table.records)| + inserted && inserted <= |batch|
      ensures st == Ok <==> inserted == |batch|
    {
      hide AfterInsert, AfterBatch, Satisfies, FitsFrame, Completed, Valid;
      inserted, st := 0, Ok;
      assert batch[0..] == batch;
      ghost var goal := AfterBatch(schema, table.records, batch, table.nextId);
      while inserted < |batch|
        invariant 0 <= inserted <= |batch|
        invariant Valid() && table.nextId == old(table.nextId) + inserted
        invariant |table.records| == |old(table.records)| + inserted
        invariant AfterBatch(schema, table.records, batch[inserted..], table.nextId) == goal
      {
        BatchNext(schema, table.records, batch, inserted, table.nextId);
        st := Insert(batch[inserted]);
        if st != Ok {
          return;
        }
        inserted := inserted + 1;
      }
      BatchOver(schema, table.records, batch[inserted..], table.nextId);
      st := Ok;
    }

    lemma BatchNext(s: Schema, rs: seq<Record>, batch: seq<Record>, i: nat, id: nat)
      requires i < |batch|
      ensures var out := AfterInsert(s, rs, batch[i], id);
              && (out == rs || |out| == |rs| + 1)
              && AfterBatch(s, rs, batch[i..], id)
                 == if out == rs then rs else AfterBatch(s, out, batch[i + 1..], id + 1)
    {
      hide InsertAllowed, Completed;
      assert batch[i..][1..] == batch[i + 1..];
    }

    lemma BatchOver(s: Schema, rs: seq<Record>, batch: seq<Record>, id: nat)
      requires batch == []
      ensures AfterBatch(s, rs, batch, id) == rs
    {
    }

    /** table.c `kdb_table_update`. */
    method UpdateRows(q: Query, patch: seq<Field>, now: nat) returns (st: Status)
      requires Valid() && DistinctNames(patch)
      requires forall i :: 0 <= i < |table.records| ==> FitsFrame(Transformed(Update(q, patch, now), table.records[i]))
      modifies table.Footprint()
      ensures Valid()
      ensures table.records == AfterUpdate(schema, old(table.records), q, patch, now)
      ensures st == Ok <==> Satisfies(schema, Rewritten(Update(q, patch, now), old(table.records)))
    {
      hide UpdateAllowed, Satisfies, FitsFrame, Rewritten, Transformed;
      UpdateAllowedExactly(schema, table.records, q, patch, now);
      var ok := CheckUpdate(q, patch, now);
      st := table.Apply(Update(q, patch, now), !ok);
    }

    /** table.c `kdb_table_delete`. */
    method DeleteRows(q: Query) returns (st: Status)
      requires Valid()
      modifies table.Footprint()
      ensures Valid() && st == Ok && table.records == Rewritten(Delete(q), old(table.records))
    {
      hide Satisfies, FitsFrame, Rewritten, Matches;
      RemovalKeeps(schema, Delete(q), table.records);
      st := table.Apply(Delete(q), false);
    }
  }
}
